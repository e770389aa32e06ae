/** The reconciler: matches two datasets by composite key and reports the
    rows only in the first, the rows only in the second, and one difference
    row per shared key and compare column whose values disagree. */
module Reconciler {
  import opened Records
  import opened KeyOrder
  import opened KeyedIndex

  type Index = map<Key, Record>

  /** What a reconciliation yields: the three result sets, or the
      "no data" outcome for an empty first or second dataset. */
  datatype Outcome =
    | Compared(onlyA: seq<Record>, onlyB: seq<Record>, diffs: seq<Record>)
    | EmptyA
    | EmptyB

  /** One disagreement: under `key`, `column` reads `valueA` in the first
      dataset and `valueB` in the second. */
  datatype Difference = Difference(key: Key, column: string, valueA: string, valueB: string)

  // ---------------------------------------------------------------------
  // Validation

  /** The error for the first compare column missing from the first
      dataset's header (checked first) or from the second's. */
  function CompareColumnError(columns: seq<string>, headerA: Record, headerB: Record): (e: Option<SchemaError>)
    ensures e.None? <==> forall c :: c in columns ==> c in headerA && c in headerB
    ensures e.Some? ==>
      exists i :: 0 <= i < |columns|
        && (forall j :: 0 <= j < i ==> columns[j] in headerA && columns[j] in headerB)
        && (columns[i] !in headerA || columns[i] !in headerB)
        && e.value == (if columns[i] !in headerA then ColumnNotFound(columns[i], File1)
                       else ColumnNotFound(columns[i], File2))
  {
    if columns == [] then None
    else if columns[0] !in headerA then Some(ColumnNotFound(columns[0], File1))
    else if columns[0] !in headerB then Some(ColumnNotFound(columns[0], File2))
    else
      var e := CompareColumnError(columns[1..], headerA, headerB);
      assert forall c :: c in columns ==> c == columns[0] || c in columns[1..];
      e
  }

  // ---------------------------------------------------------------------
  // Result sets

  /** The rows an index holds for `ks`, in the order of `ks`. */
  function Lookup(index: Index, ks: seq<Key>): (rs: seq<Record>)
    requires forall k :: k in ks ==> k in index
    ensures |rs| == |ks|
    ensures forall i :: 0 <= i < |ks| ==> rs[i] == index[ks[i]]
    decreases |ks|
  {
    if ks == [] then []
    else Lookup(index, ks[..|ks| - 1]) + [index[ks[|ks| - 1]]]
  }

  /** The disagreements of `rA` and `rB` under key `k`, in the order of
      `columns`; a missing field reads as empty. */
  function ColumnDiffs(k: Key, rA: Record, rB: Record, columns: seq<string>): (ds: seq<Difference>)
    ensures |ds| <= |columns|
    decreases |columns|
  {
    if columns == [] then []
    else
      var c := columns[|columns| - 1];
      var init := ColumnDiffs(k, rA, rB, columns[..|columns| - 1]);
      if Get(rA, c) != Get(rB, c) then init + [Difference(k, c, Get(rA, c), Get(rB, c))] else init
  }

  /** The disagreements over the keys of `shared`, key by key. */
  function Differences(idxA: Index, idxB: Index, shared: seq<Key>, columns: seq<string>): seq<Difference>
    requires forall k :: k in shared ==> k in idxA && k in idxB
    decreases |shared|
  {
    if shared == [] then []
    else
      var n := |shared| - 1;
      var init := Differences(idxA, idxB, shared[..n], columns);
      init + ColumnDiffs(shared[n], idxA[shared[n]], idxB[shared[n]], columns)
  }

  /** Field names the difference row writes after the key columns. */
  predicate IsReserved(c: string)
  {
    c == "column" || c == "value_file1" || c == "value_file2"
  }

  /** The key part of a difference row: key column i holds `k[i]`, a later
      key column overwriting an earlier one of the same name. (Every key
      the reconciler passes has one value per key column; the guard only
      keeps the function total.) */
  function KeyFields(keyColumns: seq<string>, k: Key): Record
    decreases |keyColumns|
  {
    if keyColumns == [] then map[]
    else
      var n := |keyColumns| - 1;
      KeyFields(keyColumns[..n], k)[keyColumns[n] := if n < |k| then k[n] else ""]
  }

  /** The difference row as the report writes it: the key columns, then
      `column`, `value_file1` and `value_file2`. */
  function DiffRow(keyColumns: seq<string>, d: Difference): Record
  {
    KeyFields(keyColumns, d.key)["column" := d.column]["value_file1" := d.valueA]["value_file2" := d.valueB]
  }

  function DiffRows(keyColumns: seq<string>, ds: seq<Difference>): (rows: seq<Record>)
    ensures |rows| == |ds|
    decreases |ds|
  {
    if ds == [] then []
    else DiffRows(keyColumns, ds[..|ds| - 1]) + [DiffRow(keyColumns, ds[|ds| - 1])]
  }

  /** The three result sets for two indexes: rows only in the first and only
      in the second, each in ascending key order, and the difference rows of
      the shared keys in ascending key order. */
  ghost function Compare(idxA: Index, idxB: Index, keyColumns: seq<string>, columns: seq<string>): Outcome
  {
    var shared := SortedKeys(idxA.Keys * idxB.Keys);
    Compared(
      Lookup(idxA, SortedKeys(idxA.Keys - idxB.Keys)),
      Lookup(idxB, SortedKeys(idxB.Keys - idxA.Keys)),
      DiffRows(keyColumns, Differences(idxA, idxB, shared, columns)))
  }

  /** The reconciliation of two datasets, in the order the checks are made:
      empty first dataset, empty second dataset, compare columns against both
      headers, key columns against the first and then the second header. */
  ghost function Reconciled(rowsA: seq<Record>, rowsB: seq<Record>, keyColumns: seq<string>, columns: seq<string>)
    : Result<Outcome>
  {
    if rowsA == [] then Ok(EmptyA)
    else if rowsB == [] then Ok(EmptyB)
    else if CompareColumnError(columns, rowsA[0], rowsB[0]).Some? then
      Err(CompareColumnError(columns, rowsA[0], rowsB[0]).value)
    else if FirstMissing(keyColumns, rowsA[0]).Some? then
      Err(KeyColumnNotFound(FirstMissing(keyColumns, rowsA[0]).value))
    else if FirstMissing(keyColumns, rowsB[0]).Some? then
      Err(KeyColumnNotFound(FirstMissing(keyColumns, rowsB[0]).value))
    else
      Ok(Compare(IndexOf(rowsA, keyColumns), IndexOf(rowsB, keyColumns), keyColumns, columns))
  }

  // ---------------------------------------------------------------------
  // The computation

  /** The rows of `index` for the keys of `ks`, one at a time. */
  method LookupAll(index: Index, ks: seq<Key>) returns (rs: seq<Record>)
    requires forall k :: k in ks ==> k in index
    ensures rs == Lookup(index, ks)
  {
    rs := [];
    var i := 0;
    while i < |ks|
      invariant 0 <= i <= |ks|
      invariant rs == Lookup(index, ks[..i])
    {
      rs := rs + [index[ks[i]]];
      assert ks[..i + 1][..i] == ks[..i];
      i := i + 1;
    }
    assert ks[..|ks|] == ks;
  }

  /** One difference row, key column by key column, then the three
      reserved fields. */
  method BuildDiffRow(keyColumns: seq<string>, k: Key, column: string, v1: string, v2: string)
    returns (rowOut: Record)
    requires |k| == |keyColumns|
    ensures rowOut == DiffRow(keyColumns, Difference(k, column, v1, v2))
  {
    rowOut := map[];
    var i := 0;
    while i < |keyColumns|
      invariant 0 <= i <= |keyColumns|
      invariant rowOut == KeyFields(keyColumns[..i], k)
    {
      rowOut := rowOut[keyColumns[i] := k[i]];
      assert keyColumns[..i + 1][..i] == keyColumns[..i];
      i := i + 1;
    }
    assert keyColumns[..|keyColumns|] == keyColumns;
    rowOut := rowOut["column" := column]["value_file1" := v1]["value_file2" := v2];
  }

  /** The difference rows of one shared key, compare column by compare
      column in their given order. */
  method CollectKeyDiffs(k: Key, r1: Record, r2: Record, keyColumns: seq<string>, columns: seq<string>)
    returns (diffRows: seq<Record>)
    requires |k| == |keyColumns|
    ensures diffRows == DiffRows(keyColumns, ColumnDiffs(k, r1, r2, columns))
  {
    diffRows := [];
    var j := 0;
    while j < |columns|
      invariant 0 <= j <= |columns|
      invariant diffRows == DiffRows(keyColumns, ColumnDiffs(k, r1, r2, columns[..j]))
    {
      var col := columns[j];
      var v1 := Get(r1, col);
      var v2 := Get(r2, col);
      ColumnDiffsStep(k, r1, r2, columns, j);
      ghost var before := ColumnDiffs(k, r1, r2, columns[..j]);
      if v1 != v2 {
        var rowOut := BuildDiffRow(keyColumns, k, col, v1, v2);
        ghost var d := Difference(k, col, v1, v2);
        assert (before + [d])[..|before|] == before;
        assert DiffRows(keyColumns, before + [d]) == diffRows + [rowOut];
        diffRows := diffRows + [rowOut];
      } else {
        assert before + [] == before;
      }
      j := j + 1;
    }
    assert columns[..|columns|] == columns;
  }

  /** The difference rows of all shared keys, in the given key order. */
  method CollectDiffs(idxA: Index, idxB: Index, shared: seq<Key>, keyColumns: seq<string>, columns: seq<string>)
    returns (diffRows: seq<Record>)
    requires forall k :: k in shared ==> k in idxA && k in idxB && |k| == |keyColumns|
    ensures diffRows == DiffRows(keyColumns, Differences(idxA, idxB, shared, columns))
  {
    diffRows := [];
    var i := 0;
    while i < |shared|
      invariant 0 <= i <= |shared|
      invariant diffRows == DiffRows(keyColumns, Differences(idxA, idxB, shared[..i], columns))
    {
      var k := shared[i];
      var keyRows := CollectKeyDiffs(k, idxA[k], idxB[k], keyColumns, columns);
      DifferencesStep(idxA, idxB, shared, columns, i);
      DiffRowsAppend(keyColumns, Differences(idxA, idxB, shared[..i], columns), ColumnDiffs(k, idxA[k], idxB[k], columns));
      diffRows := diffRows + keyRows;
      i := i + 1;
    }
    assert shared[..|shared|] == shared;
  }

  /** One more compare column adds at most its own difference. */
  lemma ColumnDiffsStep(k: Key, rA: Record, rB: Record, columns: seq<string>, j: int)
    requires 0 <= j < |columns|
    ensures var c := columns[j];
      ColumnDiffs(k, rA, rB, columns[..j + 1])
        == ColumnDiffs(k, rA, rB, columns[..j])
           + (if Get(rA, c) != Get(rB, c) then [Difference(k, c, Get(rA, c), Get(rB, c))] else [])
  {
    assert columns[..j + 1][..j] == columns[..j];
  }

  /** One more shared key adds its own differences. */
  lemma DifferencesStep(idxA: Index, idxB: Index, shared: seq<Key>, columns: seq<string>, i: int)
    requires forall k :: k in shared ==> k in idxA && k in idxB
    requires 0 <= i < |shared|
    ensures forall k :: k in shared[..i] ==> k in idxA && k in idxB
    ensures Differences(idxA, idxB, shared[..i + 1], columns)
      == Differences(idxA, idxB, shared[..i], columns) + ColumnDiffs(shared[i], idxA[shared[i]], idxB[shared[i]], columns)
  {
    assert shared[..i + 1][..i] == shared[..i];
  }

  lemma {:induction false} DiffRowsAppend(keyColumns: seq<string>, ds: seq<Difference>, es: seq<Difference>)
    ensures DiffRows(keyColumns, ds + es) == DiffRows(keyColumns, ds) + DiffRows(keyColumns, es)
    decreases |es|
  {
    if es != [] {
      var n := |es| - 1;
      assert (ds + es)[..|ds| + n] == ds + es[..n];
      assert (ds + es)[|ds| + n] == es[n];
      DiffRowsAppend(keyColumns, ds, es[..n]);
    } else {
      assert ds + es == ds;
    }
  }

  /** `compare_csv_by_keys` without its printing and file writing. */
  method Reconcile(rowsA: seq<Record>, rowsB: seq<Record>, keyColumns: seq<string>, columns: seq<string>)
    returns (res: Result<Outcome>)
    ensures rowsA == [] ==> res == Ok(EmptyA)
    ensures rowsA != [] && rowsB == [] ==> res == Ok(EmptyB)
    ensures rowsA != [] && rowsB != [] && CompareColumnError(columns, rowsA[0], rowsB[0]).Some? ==>
      res == Err(CompareColumnError(columns, rowsA[0], rowsB[0]).value)
    ensures res == Reconciled(rowsA, rowsB, keyColumns, columns)
  {
    if rowsA == [] {
      return Ok(EmptyA);
    }
    if rowsB == [] {
      return Ok(EmptyB);
    }
    var i := 0;
    while i < |columns|
      invariant 0 <= i <= |columns|
      invariant CompareColumnError(columns[i..], rowsA[0], rowsB[0]) == CompareColumnError(columns, rowsA[0], rowsB[0])
    {
      if columns[i] !in rowsA[0] {
        return Err(ColumnNotFound(columns[i], File1));
      }
      if columns[i] !in rowsB[0] {
        return Err(ColumnNotFound(columns[i], File2));
      }
      assert columns[i..][1..] == columns[i + 1..];
      i := i + 1;
    }
    var r1 := IndexByKeys(rowsA, keyColumns);
    if r1.Err? {
      return Err(r1.error);
    }
    var r2 := IndexByKeys(rowsB, keyColumns);
    if r2.Err? {
      return Err(r2.error);
    }
    var idx1, idx2 := r1.value, r2.value;
    IndexStoresRowsUnderTheirKeys(rowsA, keyColumns);
    var keys1, keys2 := idx1.Keys, idx2.Keys;
    var onlyIn1, onlyIn2, inBoth := keys1 - keys2, keys2 - keys1, keys1 * keys2;
    var sorted1 := SortKeys(onlyIn1);
    var onlyA := LookupAll(idx1, sorted1);
    var sorted2 := SortKeys(onlyIn2);
    var onlyB := LookupAll(idx2, sorted2);
    var shared := SortKeys(inBoth);
    var diffs := CollectDiffs(idx1, idx2, shared, keyColumns, columns);
    return Ok(Compared(onlyA, onlyB, diffs));
  }
}
