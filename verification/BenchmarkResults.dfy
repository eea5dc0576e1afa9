/**
 The results of BenchmarkCompare.java: which rows of the two files belong together, and
 what becomes of them in the sorted set.
 */
module BenchmarkResults {
  import opened Common
  import opened BenchmarkOrder

  // ----- joining the two files

  /** A TreeMap's entries: each key smaller than all that follow. */
  ghost predicate Increasing(m: Params) {
    m == [] || (Increasing(m[1..]) && forall e :: e in m[1..] ==> CompareText(m[0].0, e.0) < 0)
  }

  lemma {:induction false} PutReplaces(m: Params, key: string, v: Value)
    requires Increasing(m)
    ensures Increasing(Put(m, key, v))
    ensures forall e :: e in Put(m, key, v) <==> e == (key, v) || (e in m && e.0 != key)
  {
    if m != [] {
      assert m == [m[0]] + m[1..];
      TextOrder(key, m[0].0);
      forall e | e in m[1..] ensures CompareText(key, m[0].0) <= 0 ==> CompareText(key, e.0) < 0 && e.0 != key {
        TextOrder(key, e.0);
        if CompareText(key, m[0].0) <= 0 {
          TextTransitive(key, m[0].0, e.0);
        }
      }
      if CompareText(key, m[0].0) > 0 {
        PutReplaces(m[1..], key, v);
      }
    }
  }

  /** Lists of entries with the same entries are the same. */
  lemma {:induction false} IncreasingIsUnique(a: Params, b: Params)
    requires Increasing(a) && Increasing(b) && forall e :: e in a <==> e in b
    ensures a == b
  {
    assert a != [] ==> a[0] in b;
    assert b != [] ==> b[0] in a;
    if a != [] && b != [] {
      assert a == [a[0]] + a[1..] && b == [b[0]] + b[1..];
      TextOrder(a[0].0, b[0].0);
      TextOrder(a[0].0, a[0].0);
      assert a[0] == b[0];
      forall e ensures e in a[1..] <==> e in b[1..] {
        assert e in a <==> e in b;
      }
      IncreasingIsUnique(a[1..], b[1..]);
    }
  }

  function Entry(columns: seq<string>, texts: seq<string>, from: int, j: nat): (string, Value)
    requires j < |columns| == |texts|
  {
    (columns[j], Value(texts[j], from + j))
  }

  /** Of the first n columns, column j is the last one with its name. */
  predicate Visible(columns: seq<string>, j: nat, n: nat)
    requires n <= |columns|
  {
    j < n && columns[j] !in columns[j + 1..n]
  }

  lemma VisibleStep(columns: seq<string>, j: nat, n: nat)
    requires 1 <= n <= |columns|
    ensures Visible(columns, j, n) <==> j == n - 1 || (Visible(columns, j, n - 1) && columns[j] != columns[n - 1])
  {
    if j < n - 1 {
      assert columns[j + 1..n] == columns[j + 1..n - 1] + [columns[n - 1]];
    }
  }

  /** A row's parameters are its cells, without those under a name that comes again. */
  lemma {:induction false} ParamsHoldCells(columns: seq<string>, texts: seq<string>, from: int, n: nat)
    requires n <= |columns| == |texts|
    ensures Increasing(ParamsOf(columns, texts, from, n))
    ensures forall e :: e in ParamsOf(columns, texts, from, n) <==>
      exists j: nat :: Visible(columns, j, n) && e == Entry(columns, texts, from, j)
  {
    if n > 0 {
      ParamsHoldCells(columns, texts, from, n - 1);
      var before, after := ParamsOf(columns, texts, from, n - 1), ParamsOf(columns, texts, from, n);
      PutReplaces(before, columns[n - 1], Value(texts[n - 1], from + n - 1));
      forall e ensures e in after <==> exists j: nat :: Visible(columns, j, n) && e == Entry(columns, texts, from, j) {
        if e in after {
          if e == Entry(columns, texts, from, n - 1) {
            VisibleStep(columns, n - 1, n);
          } else {
            var j: nat :| Visible(columns, j, n - 1) && e == Entry(columns, texts, from, j);
            VisibleStep(columns, j, n);
          }
        }
        if j: nat :| Visible(columns, j, n) && e == Entry(columns, texts, from, j) {
          VisibleStep(columns, j, n);
        }
      }
    }
  }

  /** One of the cells that count: name, text and number, in the last column of that name. */
  ghost predicate IsCell(columns: seq<string>, texts: seq<string>, from: int, e: (string, Value))
    requires |columns| == |texts|
  {
    exists j: nat :: Visible(columns, j, |columns|) && e == Entry(columns, texts, from, j)
  }

  /** Two rows, each with its file's columns and its first number, have the same cells that count. */
  ghost predicate SameCells(c: seq<string>, s: seq<string>, i: int, d: seq<string>, t: seq<string>, j: int)
    requires |c| == |s| && |d| == |t|
  {
    forall e {:trigger IsCell(c, s, i, e)} {:trigger IsCell(d, t, j, e)} :: IsCell(c, s, i, e) <==> IsCell(d, t, j, e)
  }

  lemma SameCellsSameParams(c: seq<string>, s: seq<string>, i: int, d: seq<string>, t: seq<string>, j: int)
    requires |c| == |s| && |d| == |t|
    ensures ParamsOf(c, s, i, |c|) == ParamsOf(d, t, j, |d|) <==> SameCells(c, s, i, d, t, j)
  {
    var a, b := ParamsOf(c, s, i, |c|), ParamsOf(d, t, j, |d|);
    ParamsHoldCells(c, s, i, |c|);
    ParamsHoldCells(d, t, j, |d|);
    assert forall e :: e in a <==> IsCell(c, s, i, e);
    assert forall e :: e in b <==> IsCell(d, t, j, e);
    if SameCells(c, s, i, d, t, j) {
      IncreasingIsUnique(a, b);
    }
  }

  lemma OnlySamePlace(base: File, patch: File, q: nat, r: nat)
    requires base.Valid() && patch.Valid() && base.columns == patch.columns && |base.columns| >= 1
    requires q < |base.rows| && r < |patch.rows| && Key(base, q) == Key(patch, r)
    ensures q == r
  {
    assert base.rows[q] in base.rows && patch.rows[r] in patch.rows;
    var n := |base.columns|;
    SameFirstId(base, patch, q);
    SameFirstId(base, patch, r);
    OwnRange(base.columns, base.rows[q].texts, FirstId(base, q), n);
    OwnRange(patch.columns, patch.rows[r].texts, FirstId(patch, r), n);
    var e := Key(base, q).params[0];
    assert e in Key(base, q).params && e in Key(patch, r).params;
    if q < r {
      RangesFollow(base, q, r);
    } else if r < q {
      RangesFollow(base, r, q);
    }
  }

  /** The two rows agree in mode, benchmark, and the cells that count, numbers included. */
  ghost predicate BelongTogether(base: File, patch: File, q: nat, r: nat)
    requires base.Valid() && patch.Valid() && q < |base.rows| && r < |patch.rows|
  {
    assert base.rows[q] in base.rows && patch.rows[r] in patch.rows;
    && base.rows[q].mode == patch.rows[r].mode && base.rows[q].benchmark == patch.rows[r].benchmark
    && SameCells(base.columns, base.rows[q].texts, FirstId(base, q),
                 patch.columns, patch.rows[r].texts, FirstId(patch, r))
  }

  /** A base row finds a patch row under its own key: in any two files, the keys are equal if the cells are. */
  lemma JoinComparesCells(base: File, patch: File, q: nat, r: nat)
    requires base.Valid() && patch.Valid() && q < |base.rows| && r < |patch.rows|
    ensures Key(base, q) == Key(patch, r) <==> BelongTogether(base, patch, q, r)
  {
    assert base.rows[q] in base.rows && patch.rows[r] in patch.rows;
    SameCellsSameParams(base.columns, base.rows[q].texts, FirstId(base, q),
                        patch.columns, patch.rows[r].texts, FirstId(patch, r));
  }

  /** In files with the same columns, repeated names or not, only a row in the same place has the same cells. */
  lemma JoinInSameColumns(base: File, patch: File, q: nat, r: nat)
    requires base.Valid() && patch.Valid() && base.columns == patch.columns
    requires q < |base.rows| && r < |patch.rows|
    ensures BelongTogether(base, patch, q, r) <==>
      && base.rows[q].mode == patch.rows[r].mode && base.rows[q].benchmark == patch.rows[r].benchmark
      && (base.columns != [] ==> q == r)
      && forall j: nat :: Visible(base.columns, j, |base.columns|) ==> base.rows[q].texts[j] == patch.rows[r].texts[j]
  {
    assert base.rows[q] in base.rows && patch.rows[r] in patch.rows;
    JoinComparesCells(base, patch, q, r);
    SameFirstId(base, patch, q);
    if base.columns != [] && BelongTogether(base, patch, q, r) {
      OnlySamePlace(base, patch, q, r);
    }
    if base.columns != [] && q == r {
      TextsAreCells(base.columns, base.rows[q].texts, patch.rows[r].texts, FirstId(base, q));
    }
  }

  lemma TextsAreCells(columns: seq<string>, s: seq<string>, t: seq<string>, from: int)
    requires |columns| == |s| == |t|
    ensures SameCells(columns, s, from, columns, t, from) <==>
      forall j: nat :: Visible(columns, j, |columns|) ==> s[j] == t[j]
  {
    if SameCells(columns, s, from, columns, t, from) {
      forall j: nat | Visible(columns, j, |columns|) ensures s[j] == t[j] {
        assert IsCell(columns, s, from, Entry(columns, s, from, j));
        assert IsCell(columns, t, from, Entry(columns, s, from, j));
      }
    }
    if forall j: nat :: Visible(columns, j, |columns|) ==> s[j] == t[j] {
      assert forall j: nat :: Visible(columns, j, |columns|) ==>
        Entry(columns, s, from, j) == Entry(columns, t, from, j);
    }
  }

  /** Where no name is repeated, every column counts. */
  lemma AllVisible(columns: seq<string>, j: nat)
    requires NoDup(columns) && j < |columns|
    ensures Visible(columns, j, |columns|)
  {
    assert forall k :: j < k < |columns| ==> columns[k] != columns[j];
  }

  /** Cell j of the first row stands in some column of the second. */
  lemma CellMatches(c: seq<string>, s: seq<string>, i: int, d: seq<string>, t: seq<string>, j: int, k: nat)
    returns (m: nat)
    requires |c| == |s| && |d| == |t| && SameCells(c, s, i, d, t, j) && NoDup(c) && k < |c|
    ensures m < |d| && c[k] == d[m] && s[k] == t[m] && i + k == j + m
  {
    AllVisible(c, k);
    var e := Entry(c, s, i, k);
    assert IsCell(c, s, i, e) && IsCell(d, t, j, e);
    m :| Visible(d, m, |d|) && e == Entry(d, t, j, m);
  }

  /** Without repeated names, the cells determine columns, texts and numbers. */
  lemma CellsDetermineRow(c: seq<string>, s: seq<string>, i: int, d: seq<string>, t: seq<string>, j: int)
    requires |c| == |s| && |d| == |t| && SameCells(c, s, i, d, t, j) && NoDup(c) && NoDup(d)
    ensures c == d && s == t && (c != [] ==> i == j)
  {
    if c == [] || d == [] {
      if c != [] {
        var m := CellMatches(c, s, i, d, t, j, 0);
      }
      if d != [] {
        var m := CellMatches(d, t, j, c, s, i, 0);
      }
    } else {
      var first := CellMatches(c, s, i, d, t, j, 0);
      var first' := CellMatches(d, t, j, c, s, i, 0);
      var last := CellMatches(c, s, i, d, t, j, |c| - 1);
      var last' := CellMatches(d, t, j, c, s, i, |d| - 1);
      forall k | 0 <= k < |c| ensures c[k] == d[k] && s[k] == t[k] {
        var m := CellMatches(c, s, i, d, t, j, k);
      }
    }
  }

  /**
   The numbers are part of the key: without repeated names, the partner of a base row is
   the identical row under identical columns and, if there are columns, in the same place.
   */
  lemma JoinIsPositional(base: File, patch: File, q: nat, r: nat)
    requires base.Valid() && patch.Valid() && NoDup(base.columns) && NoDup(patch.columns)
    requires q < |base.rows| && r < |patch.rows|
    ensures BelongTogether(base, patch, q, r) <==>
      base.columns == patch.columns && base.rows[q] == patch.rows[r] && (base.columns != [] ==> q == r)
  {
    assert base.rows[q] in base.rows && patch.rows[r] in patch.rows;
    if BelongTogether(base, patch, q, r) {
      CellsDetermineRow(base.columns, base.rows[q].texts, FirstId(base, q),
                        patch.columns, patch.rows[r].texts, FirstId(patch, r));
    }
    if base.columns == patch.columns {
      JoinInSameColumns(base, patch, q, r);
    }
  }

  ghost predicate HasPartner(base: File, patch: File, q: nat)
    requires base.Valid() && patch.Valid() && q < |base.rows|
  {
    exists r: nat :: r < |patch.rows| && BelongTogether(base, patch, q, r)
  }

  ghost predicate AllHavePartners(base: File, patch: File)
    requires base.Valid() && patch.Valid()
  {
    forall q :: 0 <= q < |base.rows| ==> HasPartner(base, patch, q)
  }

  lemma PartnerIsFiled(base: File, patch: File, patchData: FileData, q: nat)
    requires base.Valid() && patch.Valid() && q < |base.rows|
    requires IsDataOf(patch, patchData, |patch.rows|)
    ensures Key(base, q) in patchData <==> HasPartner(base, patch, q)
  {
    if Key(base, q) in patchData {
      JoinComparesCells(base, patch, q, patchData[Key(base, q)]);
    }
    if r: nat :| r < |patch.rows| && BelongTogether(base, patch, q, r) {
      JoinComparesCells(base, patch, q, r);
    }
  }

  /** The patch file has the base file's columns, and begins with its rows; without columns, it has its rows. */
  ghost predicate Covers(base: File, patch: File) {
    || base.rows == []
    || (&& base.columns == patch.columns
        && if base.columns == [] then forall row :: row in base.rows ==> row in patch.rows
           else base.rows <= patch.rows)
  }

  /** The same for one row. */
  ghost predicate HasSameRow(base: File, patch: File, q: nat)
    requires q < |base.rows|
  {
    && base.columns == patch.columns
    && if base.columns == [] then base.rows[q] in patch.rows
       else q < |patch.rows| && base.rows[q] == patch.rows[q]
  }

  /** In files without repeated names, what makes every base row find a partner. */
  lemma PartnersArePrefix(base: File, patch: File)
    requires base.Valid() && patch.Valid() && NoDup(base.columns) && NoDup(patch.columns)
    ensures AllHavePartners(base, patch) <==> Covers(base, patch)
  {
    if base.rows != [] {
      forall q | 0 <= q < |base.rows|
        ensures HasPartner(base, patch, q) <==> HasSameRow(base, patch, q)
      {
        PartnerIsSameRow(base, patch, q);
      }
      if AllHavePartners(base, patch) {
        assert HasPartner(base, patch, 0) && HasPartner(base, patch, |base.rows| - 1);
        assert base.columns == patch.columns;
        if base.columns == [] {
          forall row | row in base.rows ensures row in patch.rows {
            var q :| 0 <= q < |base.rows| && base.rows[q] == row;
            assert HasPartner(base, patch, q);
          }
        } else {
          forall q | 0 <= q < |base.rows| ensures base.rows[q] == patch.rows[q] {
            assert HasPartner(base, patch, q);
          }
        }
      }
    }
  }

  lemma PartnerIsSameRow(base: File, patch: File, q: nat)
    requires base.Valid() && patch.Valid() && NoDup(base.columns) && NoDup(patch.columns) && q < |base.rows|
    ensures HasPartner(base, patch, q) <==> HasSameRow(base, patch, q)
  {
    if r: nat :| r < |patch.rows| && BelongTogether(base, patch, q, r) {
      JoinIsPositional(base, patch, q, r);
    }
    if base.columns == patch.columns && base.columns == [] && base.rows[q] in patch.rows {
      var r: nat :| r < |patch.rows| && patch.rows[r] == base.rows[q];
      JoinIsPositional(base, patch, q, r);
    }
    if q < |patch.rows| {
      JoinIsPositional(base, patch, q, q);
    }
  }

  const IN_ORDER := File(["p"], [Row("b", 0, ["1"]), Row("b", 0, ["2"])])

  const REORDERED := File(["p"], [Row("b", 0, ["2"]), Row("b", 0, ["1"])])

  /** The same two rows the other way round: the first base row finds no partner. */
  lemma ReorderedPatchFails(patchData: FileData)
    requires REORDERED.Valid() && IsDataOf(REORDERED, patchData, 2)
    ensures IN_ORDER.Valid() && Key(IN_ORDER, 0) !in patchData
  {
    var one, two := IN_ORDER.rows[0], IN_ORDER.rows[1];
    assert IN_ORDER.rows == [one, two];
    PartnerIsFiled(IN_ORDER, REORDERED, patchData, 0);
    PartnerIsSameRow(IN_ORDER, REORDERED, 0);
  }

  lemma {:induction false} SameFirstId(base: File, patch: File, r: nat)
    requires base.columns == patch.columns
    ensures FirstId(base, r) == FirstId(patch, r)
  {
    if r > 0 {
      SameFirstId(base, patch, r - 1);
    }
  }

  // ----- the sorted set

  ghost predicate Known(file: File, s: seq<nat>) {
    forall i :: 0 <= i < |s| ==> s[i] < |file.rows|
  }

  /**
   TreeSet.add, the set being its rows in ascending order: a row that compares equal to
   one in the set is not added, and a comparison may throw (None).
   */
  function Add(file: File, rows: seq<nat>, r: nat): Option<seq<nat>>
    requires file.Valid() && Known(file, rows) && r < |file.rows|
  {
    if rows == [] then Some([r])
    else
      match Compare(Key(file, r), Key(file, rows[0]))
      case None => None
      case Some(c) =>
        if c < 0 then Some([r] + rows)
        else if c == 0 then Some(rows)
        else
          match Add(file, rows[1..], r)
          case None => None
          case Some(more) => Some([rows[0]] + more)
  }

  ghost predicate Ascending(file: File, s: seq<nat>) {
    && Known(file, s)
    && forall i, j :: 0 <= i < j < |s| ==> RowOrder(file, s[i], s[j]) < 0
  }

  /** Row r compares below every row of s. */
  ghost predicate Below(file: File, r: nat, s: seq<nat>)
    requires r < |file.rows| && Known(file, s)
  {
    forall i :: 0 <= i < |s| ==> RowOrder(file, r, s[i]) < 0
  }

  lemma RowOrderIsTotal(file: File, p: nat, q: nat, r: nat)
    requires p < |file.rows| && q < |file.rows| && r < |file.rows|
    ensures RowOrder(file, q, p) == -RowOrder(file, p, q)
    ensures RowOrder(file, p, q) == 0 <==> p == q
    ensures RowOrder(file, p, q) < 0 && RowOrder(file, q, r) < 0 ==> RowOrder(file, p, r) < 0
  {
    var a, b, c := file.rows[p].benchmark, file.rows[q].benchmark, file.rows[r].benchmark;
    TextOrder(a, b);
    TextOrder(b, c);
    TextOrder(a, c);
    if CompareText(a, b) <= 0 && CompareText(b, c) <= 0 {
      TextTransitive(a, b, c);
    }
  }

  lemma AscendingTail(file: File, s: seq<nat>)
    requires Ascending(file, s) && s != []
    ensures Ascending(file, s[1..]) && Below(file, s[0], s[1..])
  {
    var tail := s[1..];
    forall i, j | 0 <= i < j < |tail| ensures RowOrder(file, tail[i], tail[j]) < 0 {
      assert tail[i] == s[i + 1] && tail[j] == s[j + 1];
    }
  }

  lemma AscendingCons(file: File, r: nat, s: seq<nat>)
    requires r < |file.rows| && Ascending(file, s) && Below(file, r, s)
    ensures Ascending(file, [r] + s)
  {
    var t := [r] + s;
    forall i, j | 0 <= i < j < |t| ensures RowOrder(file, t[i], t[j]) < 0 {
      assert t[j] == s[j - 1] && (i > 0 ==> t[i] == s[i - 1]);
    }
  }

  lemma BelowAll(file: File, r: nat, s: seq<nat>)
    requires r < |file.rows| && s != [] && Ascending(file, s) && RowOrder(file, r, s[0]) < 0
    ensures Below(file, r, s)
  {
    forall i | 0 < i < |s| ensures RowOrder(file, r, s[i]) < 0 {
      RowOrderIsTotal(file, r, s[0], s[i]);
    }
  }

  /** `grown` is `s` with row r, still ascending. */
  ghost predicate Grows(file: File, s: seq<nat>, r: nat, grown: seq<nat>) {
    Ascending(file, grown) && forall q :: q in grown <==> q in s || q == r
  }

  /** Row r has a key of its own among the rows of s. */
  ghost predicate OwnKey(file: File, s: seq<nat>, r: nat)
    requires file.Valid() && Known(file, s) && r < |file.rows|
  {
    forall q :: q in s ==> q == r || Key(file, q) != Key(file, r)
  }

  /** Rows with different keys compare by mode, benchmark and position, with or without columns. */
  lemma KeysCompareByPosition(file: File, q: nat, r: nat)
    requires file.Valid() && q < |file.rows| && r < |file.rows|
    requires q == r || Key(file, q) != Key(file, r)
    ensures Compare(Key(file, q), Key(file, r)) == Some(RowOrder(file, q, r))
  {
    if |file.columns| >= 1 {
      RowsCompareByPosition(file, q, r);
    } else {
      RowsWithoutParamsCollide(file, q, r);
      TextOrder(file.rows[q].benchmark, file.rows[r].benchmark);
      assert file.rows[q] in file.rows && file.rows[r] in file.rows;
    }
  }

  lemma {:induction false} AddKeepsOrder(file: File, s: seq<nat>, r: nat)
    requires file.Valid() && r < |file.rows| && Ascending(file, s) && OwnKey(file, s, r)
    ensures Add(file, s, r).Some? && Grows(file, s, r, Add(file, s, r).value)
  {
    if s != [] {
      var head, tail := s[0], s[1..];
      assert s == [head] + tail && head in s;
      KeysCompareByPosition(file, r, head);
      RowOrderIsTotal(file, r, head, head);
      AscendingTail(file, s);
      if RowOrder(file, r, head) < 0 {
        BelowAll(file, r, s);
        AscendingCons(file, r, s);
      } else if RowOrder(file, r, head) > 0 {
        AddKeepsOrder(file, tail, r);
        var more := Add(file, tail, r).value;
        forall i | 0 <= i < |more| ensures RowOrder(file, head, more[i]) < 0 {
          assert more[i] in more;
        }
        AscendingCons(file, head, more);
      }
    }
  }

  /** By mode, then by benchmark in dictionary order, then by place in the file. */
  ghost predicate ComesBefore(file: File, q: nat, r: nat)
    requires q < |file.rows| && r < |file.rows|
  {
    var a, b := file.rows[q], file.rows[r];
    || a.mode < b.mode
    || (a.mode == b.mode && TextBefore(a.benchmark, b.benchmark))
    || (a.mode == b.mode && a.benchmark == b.benchmark && q < r)
  }

  lemma RowOrderIsDictionary(file: File, q: nat, r: nat)
    requires q < |file.rows| && r < |file.rows|
    ensures RowOrder(file, q, r) < 0 <==> ComesBefore(file, q, r)
  {
    var a, b := file.rows[q].benchmark, file.rows[r].benchmark;
    DictionaryOrder(a, b);
    TextOrder(a, b);
  }

  /** The rows in ascending order, in words that do not mention a comparison. */
  ghost predicate Listed(file: File, s: seq<nat>) {
    Known(file, s) && forall i, j :: 0 <= i < j < |s| ==> ComesBefore(file, s[i], s[j])
  }

  lemma AscendingIsListed(file: File, s: seq<nat>)
    requires Ascending(file, s)
    ensures Listed(file, s)
  {
    forall i, j | 0 <= i < j < |s| ensures ComesBefore(file, s[i], s[j]) {
      RowOrderIsDictionary(file, s[i], s[j]);
    }
  }

  /** The results, or the exception at a missing partner, or that of a comparison. */
  datatype Collected = Sorted(rows: seq<nat>) | NullPointer | DifferentKeySets

  /**
   The loop that collects the results, whatever the order in which the hash map delivers
   its entries. No comparison throws. A base row without a partner in the patch file ends
   it with an exception; otherwise every row that the base file was read into is kept,
   once, sorted by mode, benchmark and position.
   */
  method CollectResults(base: File, patch: File, baseData: FileData, patchData: FileData, entries: seq<nat>)
    returns (r: Collected)
    requires base.Valid() && IsDataOf(base, baseData, |base.rows|)
    requires patch.Valid() && IsDataOf(patch, patchData, |patch.rows|)
    requires forall q :: q in entries <==> q in baseData.Values
    ensures !r.DifferentKeySets?
    ensures r.Sorted? <==> forall k :: k in baseData ==> k in patchData
    ensures r.Sorted? ==> Listed(base, r.rows) && forall q :: q in r.rows <==> q in baseData.Values
    ensures r.Sorted? <==> AllHavePartners(base, patch)
    ensures NoDup(base.columns) && NoDup(patch.columns) ==> (r.Sorted? <==> Covers(base, patch))
  {
    AllFiled(base, patch, baseData, patchData);
    if NoDup(base.columns) && NoDup(patch.columns) {
      PartnersArePrefix(base, patch);
    }
    var results: seq<nat> := [];
    for i := 0 to |entries|
      invariant Ascending(base, results)
      invariant forall q :: q in results <==> q in entries[..i]
      invariant forall q :: q in entries[..i] ==> Key(base, q) in patchData
    {
      var q := entries[i];
      assert entries[..i + 1] == entries[..i] + [q];
      assert q in baseData.Values;
      if Key(base, q) !in patchData {
        return NullPointer;
      }
      assert forall p :: p in results ==> p in entries;
      AddKeepsOrder(base, results, q);
      var added := Add(base, results, q);
      if added.None? {
        return DifferentKeySets;
      }
      results := added.value;
    }
    assert entries[..|entries|] == entries;
    AscendingIsListed(base, results);
    r := Sorted(results);
  }

  lemma AllFiled(base: File, patch: File, baseData: FileData, patchData: FileData)
    requires base.Valid() && IsDataOf(base, baseData, |base.rows|)
    requires patch.Valid() && IsDataOf(patch, patchData, |patch.rows|)
    ensures (forall k :: k in baseData ==> k in patchData) <==> AllHavePartners(base, patch)
  {
    forall q | 0 <= q < |base.rows| ensures Key(base, q) in patchData <==> HasPartner(base, patch, q) {
      PartnerIsFiled(base, patch, patchData, q);
    }
    forall k | k in baseData && AllHavePartners(base, patch) ensures k in patchData {
      assert Key(base, baseData[k]) == k;
    }
  }

  /** In the collected results, rows of one mode and benchmark appear in file order. */
  lemma FileOrderWithinBenchmark(file: File, results: seq<nat>, i: nat, j: nat)
    requires Listed(file, results) && i < j < |results|
    requires file.rows[results[i]].mode == file.rows[results[j]].mode
    requires file.rows[results[i]].benchmark == file.rows[results[j]].benchmark
    ensures results[i] < results[j]
  {
    var a := file.rows[results[i]].benchmark;
    DictionaryOrder(a, a);
    TextOrder(a, a);
    assert ComesBefore(file, results[i], results[j]);
  }
}
