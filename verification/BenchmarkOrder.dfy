/**
 The rows of BenchmarkCompare.java: how reading a file numbers the parameter values and
 files the rows, and how rows are compared.
 */
module BenchmarkOrder {
  import opened Common

  // ----- String.compareTo, by sign

  function CompareText(a: string, b: string): int {
    if a == "" then if b == "" then 0 else -1
    else if b == "" then 1
    else if a[0] < b[0] then -1
    else if a[0] > b[0] then 1
    else CompareText(a[1..], b[1..])
  }

  lemma {:induction false} TextOrder(a: string, b: string)
    ensures CompareText(a, b) in {-1, 0, 1} && CompareText(b, a) == -CompareText(a, b)
    ensures CompareText(a, b) == 0 <==> a == b
  {
    if a != "" && b != "" && a[0] == b[0] {
      TextOrder(a[1..], b[1..]);
      assert a == [a[0]] + a[1..] && b == [b[0]] + b[1..];
    }
  }

  lemma {:induction false} TextTransitive(a: string, b: string, c: string)
    requires CompareText(a, b) <= 0 && CompareText(b, c) <= 0
    ensures CompareText(a, c) <= 0
    ensures CompareText(a, b) < 0 || CompareText(b, c) < 0 ==> CompareText(a, c) < 0
  {
    if a != "" && b != "" && c != "" && a[0] == b[0] == c[0] {
      TextTransitive(a[1..], b[1..], c[1..]);
    }
  }

  /** Dictionary order: a is cut short where b goes on, or has the smaller character where they part. */
  ghost predicate TextBefore(a: string, b: string) {
    exists k: nat :: PartAt(a, b, k)
  }

  predicate PartAt(a: string, b: string, k: nat) {
    && k <= |a| && k < |b| && a[..k] == b[..k]
    && (k < |a| ==> a[k] < b[k])
  }

  lemma PartLater(a: string, b: string, k: nat)
    requires a != "" && b != "" && a[0] == b[0] && k > 0
    ensures PartAt(a, b, k) <==> PartAt(a[1..], b[1..], k - 1)
  {
    if k <= |a| && k <= |b| {
      assert a[..k] == [a[0]] + a[1..][..k - 1] && b[..k] == [b[0]] + b[1..][..k - 1];
    }
  }

  lemma CommonStart(a: string, b: string)
    requires a != "" && b != "" && a[0] == b[0]
    ensures TextBefore(a, b) <==> TextBefore(a[1..], b[1..])
  {
    if k: nat :| PartAt(a, b, k) {
      PartLater(a, b, k);
    }
    if k: nat :| PartAt(a[1..], b[1..], k) {
      PartLater(a, b, k + 1);
    }
  }

  lemma SharedHead(a: string, b: string, k: nat)
    requires PartAt(a, b, k) && k > 0
    ensures a != "" && b != "" && a[0] == b[0]
  {
    assert a[..k][0] == a[0] && b[..k][0] == b[0];
  }

  lemma NoCommonStart(a: string, b: string)
    requires a == "" || b == "" || a[0] != b[0]
    ensures TextBefore(a, b) <==> b != "" && (a == "" || a[0] < b[0])
  {
    if b != "" && (a == "" || a[0] < b[0]) {
      assert PartAt(a, b, 0);
    }
    if k: nat :| PartAt(a, b, k) {
      if k > 0 {
        SharedHead(a, b, k);
      }
    }
  }

  lemma {:induction false} DictionaryOrder(a: string, b: string)
    ensures CompareText(a, b) < 0 <==> TextBefore(a, b)
  {
    if a == "" || b == "" || a[0] != b[0] {
      NoCommonStart(a, b);
    } else {
      CommonStart(a, b);
      DictionaryOrder(a[1..], b[1..]);
    }
  }

  // ----- the parameters of a row

  datatype Value = Value(value: string, order: int)

  /** A TreeMap: entries in ascending order of their keys. */
  type Params = seq<(string, Value)>

  function Keys(m: Params): seq<string> {
    if m == [] then [] else [m[0].0] + Keys(m[1..])
  }

  /** TreeMap.put */
  function Put(m: Params, key: string, v: Value): (r: Params)
    ensures r != []
  {
    if m == [] then [(key, v)]
    else if CompareText(key, m[0].0) < 0 then [(key, v)] + m
    else if CompareText(key, m[0].0) == 0 then [(key, v)] + m[1..]
    else [m[0]] + Put(m[1..], key, v)
  }

  /** Comparing value by value; None is the exception for different key sets. */
  function CompareParams(a: Params, b: Params): Option<int> {
    if Keys(a) != Keys(b) then None else Some(CompareEntries(a, b))
  }

  function CompareEntries(a: Params, b: Params): int {
    if a == [] || b == [] then 0
    else if a[0].1.order < b[0].1.order then -1
    else if a[0].1.order > b[0].1.order then 1
    else CompareEntries(a[1..], b[1..])
  }

  /** The key of a result: the mode by its position in the enum. */
  datatype BenchmarkParams = BenchmarkParams(benchmark: string, mode: nat, params: Params)

  function Compare(a: BenchmarkParams, b: BenchmarkParams): Option<int> {
    if a.mode != b.mode then Some(if a.mode < b.mode then -1 else 1)
    else if CompareText(a.benchmark, b.benchmark) != 0 then Some(CompareText(a.benchmark, b.benchmark))
    else CompareParams(a.params, b.params)
  }

  // ----- reading a file

  /** A row: its texts under the "Param:" columns, in the order in which the columns are visited. */
  datatype Row = Row(benchmark: string, mode: nat, texts: seq<string>)

  /** The file: the trimmed names of those columns, and the rows. */
  datatype File = File(columns: seq<string>, rows: seq<Row>) {
    ghost predicate Valid() {
      forall row :: row in rows ==> |row.texts| == |columns|
    }
  }

  /** The parameters after the first n columns, the first of them numbered `from`. */
  function ParamsOf(columns: seq<string>, texts: seq<string>, from: int, n: nat): Params
    requires n <= |columns| == |texts|
  {
    if n == 0 then []
    else Put(ParamsOf(columns, texts, from, n - 1), columns[n - 1], Value(texts[n - 1], from + n - 1))
  }

  /** Numbers run on from row to row. */
  function FirstId(file: File, r: nat): nat {
    if r == 0 then 0 else FirstId(file, r - 1) + |file.columns|
  }

  function Key(file: File, r: nat): BenchmarkParams
    requires file.Valid() && r < |file.rows|
  {
    var row := file.rows[r];
    assert row in file.rows;
    BenchmarkParams(row.benchmark, row.mode, ParamsOf(file.columns, row.texts, FirstId(file, r), |file.columns|))
  }

  /** What a file is read into: for every key, the row that was put under it. */
  type FileData = map<BenchmarkParams, nat>

  /** Of the first n rows, every key that occurs has the last one that has it. */
  ghost predicate IsDataOf(file: File, data: FileData, n: nat)
    requires file.Valid() && n <= |file.rows|
  {
    && (forall k :: k in data ==> data[k] < n && Key(file, data[k]) == k)
    && (forall r :: 0 <= r < n ==> Key(file, r) in data && r <= data[Key(file, r)])
  }

  method ReadCsv(file: File) returns (fileData: FileData)
    requires file.Valid()
    ensures IsDataOf(file, fileData, |file.rows|)
  {
    fileData := map[];
    var valueId := 0;
    for r := 0 to |file.rows|
      invariant IsDataOf(file, fileData, r)
      invariant valueId == FirstId(file, r)
    {
      var row := file.rows[r];
      assert row in file.rows;
      var params: Params := [];
      for j := 0 to |file.columns|
        invariant params == ParamsOf(file.columns, row.texts, FirstId(file, r), j)
        invariant valueId == FirstId(file, r) + j
      {
        params := Put(params, file.columns[j], Value(row.texts[j], valueId));
        valueId := valueId + 1;
      }
      DataOneMore(file, fileData, r);
      fileData := fileData[BenchmarkParams(row.benchmark, row.mode, params) := r];
    }
  }

  lemma DataOneMore(file: File, data: FileData, r: nat)
    requires file.Valid() && r < |file.rows| && IsDataOf(file, data, r)
    ensures IsDataOf(file, data[Key(file, r) := r], r + 1)
  {
  }

  // ----- what the numbers guarantee

  ghost predicate OrdersWithin(m: Params, from: int, to: int) {
    forall e :: e in m ==> from <= e.1.order < to
  }

  lemma {:induction false} PutKeeps(m: Params, key: string, v: Value, from: int, to: int)
    requires OrdersWithin(m, from, to) && from <= v.order < to
    ensures OrdersWithin(Put(m, key, v), from, to)
  {
    if m != [] {
      assert m[0] in m && forall e :: e in m[1..] ==> e in m;
      PutKeeps(m[1..], key, v, from, to);
    }
  }

  /** All numbers of a row lie in the row's own range, also where columns share a trimmed name. */
  lemma {:induction false} OwnRange(columns: seq<string>, texts: seq<string>, from: int, n: nat)
    requires n <= |columns| == |texts|
    ensures OrdersWithin(ParamsOf(columns, texts, from, n), from, from + n)
    ensures n > 0 ==> ParamsOf(columns, texts, from, n) != []
  {
    if n > 0 {
      OwnRange(columns, texts, from, n - 1);
      var before := ParamsOf(columns, texts, from, n - 1);
      assert OrdersWithin(before, from, from + n);
      PutKeeps(before, columns[n - 1], Value(texts[n - 1], from + n - 1), from, from + n);
    }
  }

  function PutKey(keys: seq<string>, key: string): seq<string> {
    if keys == [] then [key]
    else if CompareText(key, keys[0]) < 0 then [key] + keys
    else if CompareText(key, keys[0]) == 0 then [key] + keys[1..]
    else [keys[0]] + PutKey(keys[1..], key)
  }

  lemma {:induction false} KeysOfPut(m: Params, key: string, v: Value)
    ensures Keys(Put(m, key, v)) == PutKey(Keys(m), key)
  {
    if m == [] {
      assert Keys([(key, v)]) == [key] + Keys([]);
    } else {
      KeysOfPut(m[1..], key, v);
      assert Keys(m)[1..] == Keys(m[1..]);
      assert ([(key, v)] + m)[1..] == m && ([(key, v)] + m[1..])[1..] == m[1..];
      assert ([m[0]] + Put(m[1..], key, v))[1..] == Put(m[1..], key, v);
    }
  }

  /** The key set of a row only depends on the columns. */
  lemma {:induction false} SameKeys(columns: seq<string>, s: seq<string>, t: seq<string>, i: int, j: int, n: nat)
    requires n <= |columns| == |s| == |t|
    ensures Keys(ParamsOf(columns, s, i, n)) == Keys(ParamsOf(columns, t, j, n))
  {
    if n > 0 {
      SameKeys(columns, s, t, i, j, n - 1);
      KeysOfPut(ParamsOf(columns, s, i, n - 1), columns[n - 1], Value(s[n - 1], i + n - 1));
      KeysOfPut(ParamsOf(columns, t, j, n - 1), columns[n - 1], Value(t[n - 1], j + n - 1));
    }
  }

  lemma {:induction false} RangesFollow(file: File, q: nat, r: nat)
    requires q < r
    ensures FirstId(file, q) + |file.columns| <= FirstId(file, r)
  {
    if q < r - 1 {
      RangesFollow(file, q, r - 1);
    }
  }

  /** The first parameter of an earlier row is smaller than that of a later one. */
  lemma EarlierIsSmaller(a: Params, b: Params, bound: int)
    requires a != [] && b != [] && Keys(a) == Keys(b)
    requires forall e :: e in a ==> e.1.order < bound
    requires forall e :: e in b ==> bound <= e.1.order
    ensures CompareParams(a, b) == Some(-1) && CompareParams(b, a) == Some(1) && a != b
  {
    assert a[0] in a && b[0] in b;
  }

  function Sign(x: int): int {
    if x < 0 then -1 else if x > 0 then 1 else 0
  }

  /** How rows q and r of one file should compare: by mode, then benchmark, then position. */
  function RowOrder(file: File, q: nat, r: nat): int
    requires q < |file.rows| && r < |file.rows|
  {
    if file.rows[q].mode != file.rows[r].mode then Sign(file.rows[q].mode - file.rows[r].mode)
    else if file.rows[q].benchmark != file.rows[r].benchmark then
      CompareText(file.rows[q].benchmark, file.rows[r].benchmark)
    else Sign(q - r)
  }

  /**
   With at least one parameter column, comparing two rows never throws, and rows of one
   mode and benchmark compare by their position in the file.
   */
  lemma RowsCompareByPosition(file: File, q: nat, r: nat)
    requires file.Valid() && |file.columns| >= 1 && q < |file.rows| && r < |file.rows|
    ensures Compare(Key(file, q), Key(file, r)) == Some(RowOrder(file, q, r))
    ensures Key(file, q) == Key(file, r) <==> q == r
  {
    var n := |file.columns|;
    assert file.rows[q] in file.rows && file.rows[r] in file.rows;
    var a, b := Key(file, q), Key(file, r);
    TextOrder(a.benchmark, b.benchmark);
    OwnRange(file.columns, file.rows[q].texts, FirstId(file, q), n);
    OwnRange(file.columns, file.rows[r].texts, FirstId(file, r), n);
    SameKeys(file.columns, file.rows[q].texts, file.rows[r].texts, FirstId(file, q), FirstId(file, r), n);
    if q < r {
      RangesFollow(file, q, r);
      EarlierIsSmaller(a.params, b.params, FirstId(file, r));
    } else if r < q {
      RangesFollow(file, r, q);
      EarlierIsSmaller(b.params, a.params, FirstId(file, q));
    } else {
      EntriesTie(a.params);
    }
  }

  lemma {:induction false} EntriesTie(a: Params)
    ensures CompareEntries(a, a) == 0
  {
    if a != [] {
      EntriesTie(a[1..]);
    }
  }

  /**
   Without parameter columns the promise is lost: rows of one mode and benchmark have the
   same key, so that the later one overwrites the earlier one.
   */
  lemma RowsWithoutParamsCollide(file: File, q: nat, r: nat)
    requires file.Valid() && file.columns == [] && q < |file.rows| && r < |file.rows|
    ensures Key(file, q) == Key(file, r) <==>
      file.rows[q].mode == file.rows[r].mode && file.rows[q].benchmark == file.rows[r].benchmark
  {
    assert file.rows[q] in file.rows && file.rows[r] in file.rows;
  }

  /** No later row has the mode and the benchmark of row r. */
  ghost predicate IsLastOfKind(file: File, r: nat)
    requires r < |file.rows|
  {
    forall q :: r < q < |file.rows| ==>
      !(file.rows[q].mode == file.rows[r].mode && file.rows[q].benchmark == file.rows[r].benchmark)
  }

  /**
   With a parameter column every row is kept under its own key; without, what is kept is
   the last row of each mode and benchmark.
   */
  lemma RowsKept(file: File, data: FileData, r: nat)
    requires file.Valid() && IsDataOf(file, data, |file.rows|) && r < |file.rows|
    ensures |file.columns| >= 1 ==> data[Key(file, r)] == r
    ensures file.columns == [] ==> (r in data.Values <==> IsLastOfKind(file, r))
  {
    var last := data[Key(file, r)];
    assert r in data.Values ==> last == r;
    if |file.columns| >= 1 {
      RowsCompareByPosition(file, last, r);
    } else {
      forall q | 0 <= q < |file.rows|
        ensures Key(file, q) == Key(file, r) <==>
          file.rows[q].mode == file.rows[r].mode && file.rows[q].benchmark == file.rows[r].benchmark
      {
        RowsWithoutParamsCollide(file, q, r);
      }
      assert Key(file, last) == Key(file, r);
    }
  }
}
