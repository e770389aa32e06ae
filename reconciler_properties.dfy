/** What the reconciler promises about its three result sets: the difference
    rows are exactly the disagreements, in key order and within a key in
    compare-column order; the key sets partition; reconciling a dataset
    with itself reports nothing; swapping the datasets swaps the sides. */
module ReconcilerProperties {
  import opened Records
  import opened KeyOrder
  import opened KeyedIndex
  import opened Reconciler

  // ---------------------------------------------------------------------
  // Differences of one key

  /** Each difference of one key is for that key and a compare column, and
      carries the two records' values there, which differ. */
  lemma {:induction false} ColumnDiffsSound(k: Key, rA: Record, rB: Record, columns: seq<string>)
    ensures forall d :: d in ColumnDiffs(k, rA, rB, columns) ==>
      && d.key == k && d.column in columns
      && d.valueA == Get(rA, d.column) && d.valueB == Get(rB, d.column)
      && d.valueA != d.valueB
    decreases |columns|
  {
    if columns != [] {
      var n := |columns| - 1;
      ColumnDiffsSound(k, rA, rB, columns[..n]);
      assert forall c :: c in columns[..n] ==> c in columns;
    }
  }

  /** Every compare column on which the two records disagree yields a
      difference (the converse of `ColumnDiffsSound`). */
  lemma {:induction false} ColumnDiffsComplete(k: Key, rA: Record, rB: Record, columns: seq<string>, c: string)
    requires c in columns && Get(rA, c) != Get(rB, c)
    ensures Difference(k, c, Get(rA, c), Get(rB, c)) in ColumnDiffs(k, rA, rB, columns)
    decreases |columns|
  {
    var n := |columns| - 1;
    if columns[n] != c {
      assert c in columns[..n] by {
        var i :| 0 <= i < |columns| && columns[i] == c;
        assert columns[..n][i] == c;
      }
      ColumnDiffsComplete(k, rA, rB, columns[..n], c);
    }
  }

  /** The compare columns on which `rA` and `rB` disagree, in
      compare-column order. */
  function DifferingColumns(rA: Record, rB: Record, columns: seq<string>): (differing: seq<string>)
    ensures forall c :: c in differing <==> c in columns && Get(rA, c) != Get(rB, c)
  {
    Select(columns, c => Get(rA, c) != Get(rB, c))
  }

  /** The columns of the differences of one key are the disagreeing compare
      columns, in compare-column order. */
  lemma {:induction false} ColumnDiffsInColumnOrder(k: Key, rA: Record, rB: Record, columns: seq<string>)
    ensures var ds := ColumnDiffs(k, rA, rB, columns);
      var differing := DifferingColumns(rA, rB, columns);
      |ds| == |differing| && forall i :: 0 <= i < |ds| ==> ds[i].column == differing[i]
    decreases |columns|
  {
    if columns != [] {
      ColumnDiffsInColumnOrder(k, rA, rB, columns[..|columns| - 1]);
    }
  }

  /** Two equal records never disagree. */
  lemma {:induction false} ColumnDiffsOfSame(k: Key, r: Record, columns: seq<string>)
    ensures ColumnDiffs(k, r, r, columns) == []
    decreases |columns|
  {
    if columns != [] {
      ColumnDiffsOfSame(k, r, columns[..|columns| - 1]);
    }
  }

  // ---------------------------------------------------------------------
  // Differences over the shared keys

  /** Each difference is for a listed key and a compare column, and carries
      the two indexed rows' values there, which differ. */
  lemma {:induction false} DifferencesSound(idxA: Index, idxB: Index, shared: seq<Key>, columns: seq<string>)
    requires forall k :: k in shared ==> k in idxA && k in idxB
    ensures forall d :: d in Differences(idxA, idxB, shared, columns) ==>
      && d.key in shared && d.column in columns
      && d.valueA == Get(idxA[d.key], d.column) && d.valueB == Get(idxB[d.key], d.column)
      && d.valueA != d.valueB
    decreases |shared|
  {
    if shared != [] {
      var n := |shared| - 1;
      DifferencesSound(idxA, idxB, shared[..n], columns);
      ColumnDiffsSound(shared[n], idxA[shared[n]], idxB[shared[n]], columns);
      assert forall k :: k in shared[..n] ==> k in shared;
    }
  }

  /** The differences under key `k`, in their order in `ds`. */
  function DiffsOfKey(ds: seq<Difference>, k: Key): (mine: seq<Difference>)
    ensures forall d :: d in mine <==> d in ds && d.key == k
    decreases |ds|
  {
    if ds == [] then []
    else
      var n := |ds| - 1;
      assert ds == ds[..n] + [ds[n]];
      var init := DiffsOfKey(ds[..n], k);
      if ds[n].key == k then init + [ds[n]] else init
  }

  lemma {:induction false} DiffsOfKeyAppend(a: seq<Difference>, b: seq<Difference>, k: Key)
    ensures DiffsOfKey(a + b, k) == DiffsOfKey(a, k) + DiffsOfKey(b, k)
    decreases |b|
  {
    if b == [] {
      assert a + b == a;
    } else {
      var n := |b| - 1;
      assert (a + b)[..|a + b| - 1] == a + b[..n];
      DiffsOfKeyAppend(a, b[..n], k);
    }
  }

  lemma {:induction false} DiffsOfKeyAll(ds: seq<Difference>, k: Key)
    requires forall i :: 0 <= i < |ds| ==> ds[i].key == k
    ensures DiffsOfKey(ds, k) == ds
    decreases |ds|
  {
    if ds != [] {
      var n := |ds| - 1;
      var init := ds[..n];
      assert forall i :: 0 <= i < n ==> init[i] == ds[i];
      DiffsOfKeyAll(init, k);
      assert ds == init + [ds[n]];
    }
  }

  lemma {:induction false} DiffsOfKeyNone(ds: seq<Difference>, k: Key)
    requires forall i :: 0 <= i < |ds| ==> ds[i].key != k
    ensures DiffsOfKey(ds, k) == []
    decreases |ds|
  {
    if ds != [] {
      var n := |ds| - 1;
      var init := ds[..n];
      assert forall i :: 0 <= i < n ==> init[i] == ds[i];
      DiffsOfKeyNone(init, k);
    }
  }

  /** With each shared key listed once, the differences under one shared
      key are exactly that key's differences, in compare-column order. */
  lemma {:induction false} DifferencesOfKey(idxA: Index, idxB: Index, shared: seq<Key>, columns: seq<string>, k: Key)
    requires forall k :: k in shared ==> k in idxA && k in idxB
    requires forall i, j :: 0 <= i < j < |shared| ==> shared[i] != shared[j]
    requires k in shared
    ensures DiffsOfKey(Differences(idxA, idxB, shared, columns), k) == ColumnDiffs(k, idxA[k], idxB[k], columns)
    decreases |shared|
  {
    var n := |shared| - 1;
    DifferencesStep(idxA, idxB, shared, columns, n);
    var init := Differences(idxA, idxB, shared[..n], columns);
    var last := ColumnDiffs(shared[n], idxA[shared[n]], idxB[shared[n]], columns);
    DiffsOfKeyAppend(init, last, k);
    ColumnDiffsSound(shared[n], idxA[shared[n]], idxB[shared[n]], columns);
    if shared[n] == k {
      DifferencesSound(idxA, idxB, shared[..n], columns);
      forall i | 0 <= i < n
        ensures shared[..n][i] != k
      {
        assert shared[..n][i] == shared[i];
      }
      DiffsOfKeyNone(init, k);
      DiffsOfKeyAll(last, k);
    } else {
      var i :| 0 <= i < |shared| && shared[i] == k;
      assert shared[..n][i] == k;
      forall i, j | 0 <= i < j < n
        ensures shared[..n][i] != shared[..n][j]
      {
        assert shared[..n][i] == shared[i] && shared[..n][j] == shared[j];
      }
      DifferencesOfKey(idxA, idxB, shared[..n], columns, k);
      DiffsOfKeyNone(last, k);
    }
  }

  /** Every disagreement of a shared key on a compare column is reported. */
  lemma {:induction false} DifferencesComplete(idxA: Index, idxB: Index, shared: seq<Key>, columns: seq<string>,
                                               k: Key, c: string)
    requires forall k :: k in shared ==> k in idxA && k in idxB
    requires k in shared && c in columns
    requires Get(idxA[k], c) != Get(idxB[k], c)
    ensures Difference(k, c, Get(idxA[k], c), Get(idxB[k], c)) in Differences(idxA, idxB, shared, columns)
    decreases |shared|
  {
    var n := |shared| - 1;
    if shared[n] == k {
      ColumnDiffsComplete(k, idxA[k], idxB[k], columns, c);
    } else {
      assert k in shared[..n] by {
        var i :| 0 <= i < |shared| && shared[i] == k;
        assert shared[..n][i] == k;
      }
      DifferencesComplete(idxA, idxB, shared[..n], columns, k, c);
    }
  }

  /** At most one difference per shared key and compare column. */
  lemma {:induction false} DifferencesBound(idxA: Index, idxB: Index, shared: seq<Key>, columns: seq<string>)
    requires forall k :: k in shared ==> k in idxA && k in idxB
    ensures |Differences(idxA, idxB, shared, columns)| <= |shared| * |columns|
    decreases |shared|
  {
    if shared != [] {
      var n := |shared| - 1;
      var m := |columns|;
      DifferencesBound(idxA, idxB, shared[..n], columns);
      var init := Differences(idxA, idxB, shared[..n], columns);
      var last := ColumnDiffs(shared[n], idxA[shared[n]], idxB[shared[n]], columns);
      assert |Differences(idxA, idxB, shared, columns)| == |init| + |last|;
      AddRow(|init|, |last|, n, m);
    }
  }

  lemma AddRow(a: int, b: int, n: int, m: int)
    requires a <= n * m && b <= m
    ensures a + b <= (n + 1) * m
  {
  }

  /** The keys of `ds` never descend: equal keys are adjacent and distinct
      keys appear in ascending order. */
  predicate KeysAscending(ds: seq<Difference>)
  {
    forall i, j :: 0 <= i < j < |ds| ==> ds[i].key == ds[j].key || KeyLess(ds[i].key, ds[j].key)
  }

  /** With the shared keys in ascending order, so are the differences'
      keys, and the differences of one key are consecutive. */
  lemma {:induction false} DifferencesInKeyOrder(idxA: Index, idxB: Index, shared: seq<Key>, columns: seq<string>)
    requires forall k :: k in shared ==> k in idxA && k in idxB
    requires Sorted(shared)
    ensures KeysAscending(Differences(idxA, idxB, shared, columns))
    decreases |shared|
  {
    if shared != [] {
      var n := |shared| - 1;
      var init := Differences(idxA, idxB, shared[..n], columns);
      var last := ColumnDiffs(shared[n], idxA[shared[n]], idxB[shared[n]], columns);
      var ds := Differences(idxA, idxB, shared, columns);
      assert ds == init + last;
      DifferencesInKeyOrder(idxA, idxB, shared[..n], columns);
      forall i, j | 0 <= i < j < |ds|
        ensures ds[i].key == ds[j].key || KeyLess(ds[i].key, ds[j].key)
      {
        if j < |init| {
          assert ds[i] == init[i] && ds[j] == init[j];
        } else if i < |init| {
          assert ds[i] == init[i] && ds[i] in init;
          assert ds[j] == last[j - |init|] && ds[j] in last;
          assert ds[i].key in shared[..n] by {
            DifferencesSound(idxA, idxB, shared[..n], columns);
          }
          assert ds[j].key == shared[n] by {
            ColumnDiffsSound(shared[n], idxA[shared[n]], idxB[shared[n]], columns);
          }
          var p :| 0 <= p < n && shared[..n][p] == ds[i].key;
          assert shared[p] == ds[i].key;
        } else {
          assert ds[i] == last[i - |init|] && ds[i] in last;
          assert ds[j] == last[j - |init|] && ds[j] in last;
          ColumnDiffsSound(shared[n], idxA[shared[n]], idxB[shared[n]], columns);
        }
      }
    }
  }

  /** Two indexes that agree on the shared keys give no differences. */
  lemma {:induction false} DifferencesOfSame(idx: Index, shared: seq<Key>, columns: seq<string>)
    requires forall k :: k in shared ==> k in idx
    ensures Differences(idx, idx, shared, columns) == []
    decreases |shared|
  {
    if shared != [] {
      var n := |shared| - 1;
      DifferencesOfSame(idx, shared[..n], columns);
      ColumnDiffsOfSame(shared[n], idx[shared[n]], columns);
    }
  }

  /** A difference seen from the other side. */
  function Swapped(d: Difference): (e: Difference)
    ensures e.key == d.key && e.column == d.column
    ensures e.valueA == d.valueB && e.valueB == d.valueA
  {
    Difference(d.key, d.column, d.valueB, d.valueA)
  }

  /** `es` is `ds` seen from the other side, position by position. */
  predicate SwappedSeq(es: seq<Difference>, ds: seq<Difference>)
  {
    |es| == |ds| && forall i :: 0 <= i < |ds| ==> es[i] == Swapped(ds[i])
  }

  lemma SwappedSeqAppend(es: seq<Difference>, ds: seq<Difference>, es': seq<Difference>, ds': seq<Difference>)
    requires SwappedSeq(es, ds) && SwappedSeq(es', ds')
    ensures SwappedSeq(es + es', ds + ds')
  {
    forall i | 0 <= i < |ds + ds'|
      ensures (es + es')[i] == Swapped((ds + ds')[i])
    {
      if i >= |ds| {
        assert (es + es')[i] == es'[i - |ds|] && (ds + ds')[i] == ds'[i - |ds|];
      }
    }
  }

  /** Exchanging the indexes exchanges the two values of every difference. */
  lemma {:induction false} DifferencesSwap(idxA: Index, idxB: Index, shared: seq<Key>, columns: seq<string>)
    requires forall k :: k in shared ==> k in idxA && k in idxB
    ensures SwappedSeq(Differences(idxB, idxA, shared, columns), Differences(idxA, idxB, shared, columns))
    decreases |shared|
  {
    if shared != [] {
      var n := |shared| - 1;
      var k := shared[n];
      DifferencesSwap(idxA, idxB, shared[..n], columns);
      ColumnDiffsSwap(k, idxA[k], idxB[k], columns);
      SwappedSeqAppend(Differences(idxB, idxA, shared[..n], columns), Differences(idxA, idxB, shared[..n], columns),
                       ColumnDiffs(k, idxB[k], idxA[k], columns), ColumnDiffs(k, idxA[k], idxB[k], columns));
    }
  }

  /** Exchanging the records exchanges the two values of every difference
      of the key. */
  lemma {:induction false} ColumnDiffsSwap(k: Key, rA: Record, rB: Record, columns: seq<string>)
    ensures SwappedSeq(ColumnDiffs(k, rB, rA, columns), ColumnDiffs(k, rA, rB, columns))
    decreases |columns|
  {
    if columns != [] {
      var n := |columns| - 1;
      var c := columns[n];
      ColumnDiffsSwap(k, rA, rB, columns[..n]);
      if Get(rA, c) != Get(rB, c) {
        SwappedSeqAppend(ColumnDiffs(k, rB, rA, columns[..n]), ColumnDiffs(k, rA, rB, columns[..n]),
                         [Difference(k, c, Get(rB, c), Get(rA, c))], [Difference(k, c, Get(rA, c), Get(rB, c))]);
      }
    }
  }

  // ---------------------------------------------------------------------
  // The difference row

  /** No key column after position `i` has the same name. */
  predicate LastOccurrence(columns: seq<string>, i: int)
    requires 0 <= i < |columns|
  {
    forall j :: i < j < |columns| ==> columns[j] != columns[i]
  }

  /** The fields of the key part are exactly the key columns. */
  lemma {:induction false} KeyFieldsKeys(keyColumns: seq<string>, k: Key)
    ensures KeyFields(keyColumns, k).Keys == set c | c in keyColumns
    decreases |keyColumns|
  {
    if keyColumns != [] {
      var n := |keyColumns| - 1;
      KeyFieldsKeys(keyColumns[..n], k);
      assert keyColumns == keyColumns[..n] + [keyColumns[n]];
    }
  }

  /** A key column holds the key value of its last occurrence in the key
      columns. */
  lemma {:induction false} KeyFieldsHoldKey(keyColumns: seq<string>, k: Key)
    requires |keyColumns| <= |k|
    ensures forall i :: 0 <= i < |keyColumns| && LastOccurrence(keyColumns, i) ==>
      keyColumns[i] in KeyFields(keyColumns, k) && KeyFields(keyColumns, k)[keyColumns[i]] == k[i]
    decreases |keyColumns|
  {
    if keyColumns != [] {
      var n := |keyColumns| - 1;
      KeyFieldsHoldKey(keyColumns[..n], k);
      forall i | 0 <= i < n && LastOccurrence(keyColumns, i)
        ensures KeyFields(keyColumns, k)[keyColumns[i]] == k[i]
      {
        assert keyColumns[..n][i] == keyColumns[i];
        forall j | i < j < n
          ensures keyColumns[..n][j] != keyColumns[..n][i]
        {
          assert keyColumns[..n][j] == keyColumns[j];
        }
        assert LastOccurrence(keyColumns[..n], i);
      }
    }
  }

  /** A difference row has the key columns and the three reserved fields;
      the reserved fields hold the column and the two values, and a key
      column that is not reserved holds the key value of its last
      occurrence. */
  lemma DiffRowFields(keyColumns: seq<string>, d: Difference)
    requires |d.key| == |keyColumns|
    ensures var row := DiffRow(keyColumns, d);
      && row.Keys == (set c | c in keyColumns) + {"column", "value_file1", "value_file2"}
      && row["column"] == d.column && row["value_file1"] == d.valueA && row["value_file2"] == d.valueB
      && forall i :: 0 <= i < |keyColumns| && !IsReserved(keyColumns[i]) && LastOccurrence(keyColumns, i) ==>
           row[keyColumns[i]] == d.key[i]
  {
    KeyFieldsKeys(keyColumns, d.key);
    KeyFieldsHoldKey(keyColumns, d.key);
  }

  /** The difference rows, one per difference, in the same order. */
  lemma {:induction false} DiffRowsPointwise(keyColumns: seq<string>, ds: seq<Difference>)
    ensures forall i :: 0 <= i < |ds| ==> DiffRows(keyColumns, ds)[i] == DiffRow(keyColumns, ds[i])
    decreases |ds|
  {
    if ds != [] {
      DiffRowsPointwise(keyColumns, ds[..|ds| - 1]);
    }
  }

  /** A difference row with its two values exchanged. */
  function SwapValues(row: Record): (s: Record)
    ensures s.Keys == row.Keys
    ensures "value_file1" in row && "value_file2" in row ==>
      s["value_file1"] == row["value_file2"] && s["value_file2"] == row["value_file1"]
    ensures forall c :: c in row && c != "value_file1" && c != "value_file2" ==> s[c] == row[c]
  {
    if "value_file1" in row && "value_file2" in row then
      row["value_file1" := row["value_file2"]]["value_file2" := row["value_file1"]]
    else row
  }

  /** Exchanging the two values of a difference exchanges the two value
      fields of its row. */
  lemma DiffRowSwap(keyColumns: seq<string>, d: Difference)
    ensures DiffRow(keyColumns, Swapped(d)) == SwapValues(DiffRow(keyColumns, d))
  {
  }

  // ---------------------------------------------------------------------
  // The whole reconciliation

  /** Both datasets have rows and every column check passes, so the
      reconciliation reaches the comparison. */
  predicate Checked(rowsA: seq<Record>, rowsB: seq<Record>, keyColumns: seq<string>, columns: seq<string>)
  {
    && rowsA != [] && rowsB != []
    && CompareColumnError(columns, rowsA[0], rowsB[0]).None?
    && FirstMissing(keyColumns, rowsA[0]).None?
    && FirstMissing(keyColumns, rowsB[0]).None?
  }

  /** The reconciliation yields the three result sets exactly when the
      checks pass. */
  lemma ComparedIffChecked(rowsA: seq<Record>, rowsB: seq<Record>, keyColumns: seq<string>, columns: seq<string>)
    ensures var res := Reconciled(rowsA, rowsB, keyColumns, columns);
      (res.Ok? && res.value.Compared?) <==> Checked(rowsA, rowsB, keyColumns, columns)
  {
  }

  /** Reconciling a dataset with itself reports no one-sided rows and no
      differences. */
  lemma ReconcileSelf(rows: seq<Record>, keyColumns: seq<string>, columns: seq<string>)
    ensures var res := Reconciled(rows, rows, keyColumns, columns);
      rows != [] && res.Ok? ==> res.value == Compared([], [], [])
  {
    if rows != [] && Reconciled(rows, rows, keyColumns, columns).Ok? {
      var idx := IndexOf(rows, keyColumns);
      assert idx.Keys - idx.Keys == {};
      DifferencesOfSame(idx, SortedKeys(idx.Keys * idx.Keys), columns);
    }
  }

  /** The rows an index of `rows` holds for `ks`: each stored under its own
      key and the last row of `rows` with that key. */
  lemma LookupRows(rows: seq<Record>, keyColumns: seq<string>, ks: seq<Key>)
    requires forall k :: k in ks ==> k in IndexOf(rows, keyColumns)
    ensures var found := Lookup(IndexOf(rows, keyColumns), ks);
      forall i :: 0 <= i < |ks| ==>
        KeyOf(found[i], keyColumns) == ks[i] && IsLastRowOfItsKey(rows, keyColumns, found[i])
  {
    var found := Lookup(IndexOf(rows, keyColumns), ks);
    IndexStoresRowsUnderTheirKeys(rows, keyColumns);
    forall i | 0 <= i < |ks|
      ensures IsLastRowOfItsKey(rows, keyColumns, found[i])
    {
      var p := IndexEntryIsLastRow(rows, keyColumns, ks[i]);
    }
  }

  /** The rows of the index of `rows` whose keys are not in `other`, in
      ascending key order: one per such key, each the last row of `rows`
      with that key. */
  lemma OnlyRowsOf(rows: seq<Record>, keyColumns: seq<string>, other: set<Key>)
    ensures |RowsNotIn(rows, keyColumns, other)| == |KeysOf(rows, keyColumns) - other|
    ensures KeysOf(RowsNotIn(rows, keyColumns, other), keyColumns) == KeysOf(rows, keyColumns) - other
    ensures var only := RowsNotIn(rows, keyColumns, other);
      forall i, j :: 0 <= i < j < |only| ==> KeyLess(KeyOf(only[i], keyColumns), KeyOf(only[j], keyColumns))
    ensures var only := RowsNotIn(rows, keyColumns, other);
      forall i :: 0 <= i < |only| ==> IsLastRowOfItsKey(rows, keyColumns, only[i])
  {
    var idx := IndexOf(rows, keyColumns);
    var ks := SortedKeys(idx.Keys - other);
    assert idx.Keys - other == KeysOf(rows, keyColumns) - other by {
      IndexKeys(rows, keyColumns);
    }
    LookupRows(rows, keyColumns, ks);
    OnlyRowKeys(rows, keyColumns, ks);
  }

  /** The rows looked up for a list of keys have exactly those keys. */
  lemma OnlyRowKeys(rows: seq<Record>, keyColumns: seq<string>, ks: seq<Key>)
    requires forall k :: k in ks ==> k in IndexOf(rows, keyColumns)
    ensures KeysOf(Lookup(IndexOf(rows, keyColumns), ks), keyColumns) == set k | k in ks
  {
    var only := Lookup(IndexOf(rows, keyColumns), ks);
    IndexStoresRowsUnderTheirKeys(rows, keyColumns);
    var keys := KeysOf(only, keyColumns);
    forall k | k in keys
      ensures k in ks
    {
      var i :| 0 <= i < |only| && KeyOf(only[i], keyColumns) == k;
    }
    forall k | k in ks
      ensures k in keys
    {
      var i :| 0 <= i < |ks| && ks[i] == k;
      assert KeyOf(only[i], keyColumns) == k;
    }
  }

  /** The rows the index of `rows` holds for the keys outside `other`, in
      ascending key order. */
  ghost function RowsNotIn(rows: seq<Record>, keyColumns: seq<string>, other: set<Key>): seq<Record>
  {
    var idx := IndexOf(rows, keyColumns);
    Lookup(idx, SortedKeys(idx.Keys - other))
  }

  /** `r` is a row of `rows` and no later row has the same key. */
  ghost predicate IsLastRowOfItsKey(rows: seq<Record>, keyColumns: seq<string>, r: Record)
  {
    exists p :: 0 <= p < |rows| && rows[p] == r
      && forall q :: p < q < |rows| ==> KeyOf(rows[q], keyColumns) != KeyOf(r, keyColumns)
  }

  /** The rows only in the first dataset: one per key of the first dataset
      that the second lacks, in ascending key order, each the last row of
      the first dataset with its key. */
  lemma OnlyInFirst(rowsA: seq<Record>, rowsB: seq<Record>, keyColumns: seq<string>, columns: seq<string>)
    requires Checked(rowsA, rowsB, keyColumns, columns)
    ensures var only := Reconciled(rowsA, rowsB, keyColumns, columns).value.onlyA;
      && |only| == |KeysOf(rowsA, keyColumns) - KeysOf(rowsB, keyColumns)|
      && KeysOf(only, keyColumns) == KeysOf(rowsA, keyColumns) - KeysOf(rowsB, keyColumns)
      && (forall i, j :: 0 <= i < j < |only| ==> KeyLess(KeyOf(only[i], keyColumns), KeyOf(only[j], keyColumns)))
      && (forall i :: 0 <= i < |only| ==> IsLastRowOfItsKey(rowsA, keyColumns, only[i]))
  {
    IndexKeys(rowsB, keyColumns);
    OnlyRowsOf(rowsA, keyColumns, IndexOf(rowsB, keyColumns).Keys);
  }

  /** The rows only in the second dataset, symmetrically. */
  lemma OnlyInSecond(rowsA: seq<Record>, rowsB: seq<Record>, keyColumns: seq<string>, columns: seq<string>)
    requires Checked(rowsA, rowsB, keyColumns, columns)
    ensures var only := Reconciled(rowsA, rowsB, keyColumns, columns).value.onlyB;
      && |only| == |KeysOf(rowsB, keyColumns) - KeysOf(rowsA, keyColumns)|
      && KeysOf(only, keyColumns) == KeysOf(rowsB, keyColumns) - KeysOf(rowsA, keyColumns)
      && (forall i, j :: 0 <= i < j < |only| ==> KeyLess(KeyOf(only[i], keyColumns), KeyOf(only[j], keyColumns)))
      && (forall i :: 0 <= i < |only| ==> IsLastRowOfItsKey(rowsB, keyColumns, only[i]))
  {
    IndexKeys(rowsA, keyColumns);
    OnlyRowsOf(rowsB, keyColumns, IndexOf(rowsA, keyColumns).Keys);
  }

  /** Every key of either dataset is in exactly one of: the keys of the rows
      only in the first, the keys of the rows only in the second, the keys
      both share. */
  lemma KeySetsPartition(rowsA: seq<Record>, rowsB: seq<Record>, keyColumns: seq<string>, columns: seq<string>)
    requires Checked(rowsA, rowsB, keyColumns, columns)
    ensures var out := Reconciled(rowsA, rowsB, keyColumns, columns).value;
      Partitions(KeysOf(out.onlyA, keyColumns), KeysOf(out.onlyB, keyColumns),
                 KeysOf(rowsA, keyColumns), KeysOf(rowsB, keyColumns))
  {
    var out := Reconciled(rowsA, rowsB, keyColumns, columns).value;
    var keysA, keysB := KeysOf(rowsA, keyColumns), KeysOf(rowsB, keyColumns);
    assert KeysOf(out.onlyA, keyColumns) == keysA - keysB by {
      OnlyInFirst(rowsA, rowsB, keyColumns, columns);
    }
    assert KeysOf(out.onlyB, keyColumns) == keysB - keysA by {
      OnlyInSecond(rowsA, rowsB, keyColumns, columns);
    }
    DifferencesPartition(keysA, keysB);
  }

  /** `onlyA`, `onlyB` and the keys both sets share are pairwise disjoint
      and together make up the keys of either set. */
  ghost predicate Partitions(onlyA: set<Key>, onlyB: set<Key>, keysA: set<Key>, keysB: set<Key>)
  {
    && onlyA * onlyB == {} && onlyA * (keysA * keysB) == {} && onlyB * (keysA * keysB) == {}
    && onlyA + onlyB + keysA * keysB == keysA + keysB
  }

  lemma DifferencesPartition(keysA: set<Key>, keysB: set<Key>)
    ensures Partitions(keysA - keysB, keysB - keysA, keysA, keysB)
  {
  }

  /** The difference rows are the rows of exactly the disagreements: a
      shared key and a compare column whose values differ, in ascending key
      order, at most one per shared key and compare column. */
  lemma ReconcileDiffs(rowsA: seq<Record>, rowsB: seq<Record>, keyColumns: seq<string>, columns: seq<string>)
    returns (ds: seq<Difference>)
    requires Checked(rowsA, rowsB, keyColumns, columns)
    ensures ds == Differences(IndexOf(rowsA, keyColumns), IndexOf(rowsB, keyColumns),
                              SortedKeys(IndexOf(rowsA, keyColumns).Keys * IndexOf(rowsB, keyColumns).Keys), columns)
    ensures var out := Reconciled(rowsA, rowsB, keyColumns, columns).value;
      |out.diffs| == |ds| && forall i :: 0 <= i < |ds| ==> out.diffs[i] == DiffRow(keyColumns, ds[i])
    ensures forall d :: d in ds <==> IsDisagreement(rowsA, rowsB, keyColumns, columns, d)
    ensures KeysAscending(ds)
    ensures |ds| <= |KeysOf(rowsA, keyColumns) * KeysOf(rowsB, keyColumns)| * |columns|
  {
    var idxA, idxB := IndexOf(rowsA, keyColumns), IndexOf(rowsB, keyColumns);
    var shared := SortedKeys(idxA.Keys * idxB.Keys);
    ds := Differences(idxA, idxB, shared, columns);
    IndexKeys(rowsA, keyColumns);
    IndexKeys(rowsB, keyColumns);
    DiffRowsPointwise(keyColumns, ds);
    DifferencesSound(idxA, idxB, shared, columns);
    forall d | IsDisagreement(rowsA, rowsB, keyColumns, columns, d)
      ensures d in ds
    {
      DifferencesComplete(idxA, idxB, shared, columns, d.key, d.column);
    }
    DifferencesInKeyOrder(idxA, idxB, shared, columns);
    DifferencesBound(idxA, idxB, shared, columns);
  }

  /** Within one shared key, the difference rows follow the compare
      columns: the differences under `k` are for exactly the compare columns
      on which the two indexed rows disagree, in compare-column order. */
  lemma ReconcileDiffsInColumnOrder(rowsA: seq<Record>, rowsB: seq<Record>, keyColumns: seq<string>,
                                    columns: seq<string>, k: Key)
    returns (ds: seq<Difference>)
    requires Checked(rowsA, rowsB, keyColumns, columns)
    requires k in IndexOf(rowsA, keyColumns) && k in IndexOf(rowsB, keyColumns)
    ensures ds == Differences(IndexOf(rowsA, keyColumns), IndexOf(rowsB, keyColumns),
                              SortedKeys(IndexOf(rowsA, keyColumns).Keys * IndexOf(rowsB, keyColumns).Keys), columns)
    ensures var out := Reconciled(rowsA, rowsB, keyColumns, columns).value;
      |out.diffs| == |ds| && forall i :: 0 <= i < |ds| ==> out.diffs[i] == DiffRow(keyColumns, ds[i])
    ensures var mine := DiffsOfKey(ds, k);
      var differing := DifferingColumns(IndexOf(rowsA, keyColumns)[k], IndexOf(rowsB, keyColumns)[k], columns);
      |mine| == |differing| && forall i :: 0 <= i < |mine| ==> mine[i].column == differing[i]
  {
    var idxA, idxB := IndexOf(rowsA, keyColumns), IndexOf(rowsB, keyColumns);
    var shared := SortedKeys(idxA.Keys * idxB.Keys);
    ds := Differences(idxA, idxB, shared, columns);
    DiffRowsPointwise(keyColumns, ds);
    forall i, j | 0 <= i < j < |shared|
      ensures shared[i] != shared[j]
    {
      KeyLessIrreflexive(shared[i]);
    }
    DifferencesOfKey(idxA, idxB, shared, columns, k);
    ColumnDiffsInColumnOrder(k, idxA[k], idxB[k], columns);
  }

  /** Under key `d.key`, present in both datasets, compare column
      `d.column` reads `d.valueA` in the first dataset's indexed row and
      `d.valueB`, a different value, in the second's. */
  ghost predicate IsDisagreement(rowsA: seq<Record>, rowsB: seq<Record>, keyColumns: seq<string>,
                                 columns: seq<string>, d: Difference)
  {
    && d.key in KeysOf(rowsA, keyColumns) * KeysOf(rowsB, keyColumns)
    && d.column in columns
    && (IndexKeys(rowsA, keyColumns); IndexKeys(rowsB, keyColumns);
        d.valueA == Get(IndexOf(rowsA, keyColumns)[d.key], d.column)
        && d.valueB == Get(IndexOf(rowsB, keyColumns)[d.key], d.column))
    && d.valueA != d.valueB
  }

  /** Exchanging the datasets exchanges the rows only in the first and only
      in the second, and exchanges the two values of every difference row. */
  lemma ReconcileSwap(rowsA: seq<Record>, rowsB: seq<Record>, keyColumns: seq<string>, columns: seq<string>)
    ensures Checked(rowsA, rowsB, keyColumns, columns) <==> Checked(rowsB, rowsA, keyColumns, columns)
    ensures Checked(rowsA, rowsB, keyColumns, columns) ==>
      var out := Reconciled(rowsA, rowsB, keyColumns, columns).value;
      var swapped := Reconciled(rowsB, rowsA, keyColumns, columns).value;
      && swapped.onlyA == out.onlyB && swapped.onlyB == out.onlyA
      && |swapped.diffs| == |out.diffs|
      && forall i :: 0 <= i < |out.diffs| ==> swapped.diffs[i] == SwapValues(out.diffs[i])
  {
    if Checked(rowsA, rowsB, keyColumns, columns) {
      var idxA, idxB := IndexOf(rowsA, keyColumns), IndexOf(rowsB, keyColumns);
      assert idxB.Keys * idxA.Keys == idxA.Keys * idxB.Keys;
      var shared := SortedKeys(idxA.Keys * idxB.Keys);
      var ds := Differences(idxA, idxB, shared, columns);
      var es := Differences(idxB, idxA, shared, columns);
      DifferencesSwap(idxA, idxB, shared, columns);
      assert SwappedSeq(es, ds);
      DiffRowsPointwise(keyColumns, ds);
      DiffRowsPointwise(keyColumns, es);
      forall i | 0 <= i < |ds|
        ensures DiffRow(keyColumns, es[i]) == SwapValues(DiffRow(keyColumns, ds[i]))
      {
        DiffRowSwap(keyColumns, ds[i]);
      }
    }
  }

  // A two-by-two example: datasets keyed by `id`, compared on `price`.

  const priceRowsA: seq<Record> := [map["id" := "1", "price" := "10"], map["id" := "2", "price" := "20"]]
  const priceRowsB: seq<Record> := [map["id" := "2", "price" := "25"], map["id" := "3", "price" := "30"]]
  const priceIndexA: Index := map[["1"] := priceRowsA[0], ["2"] := priceRowsA[1]]
  const priceIndexB: Index := map[["2"] := priceRowsB[0], ["3"] := priceRowsB[1]]

  lemma DistinctKeys()
    ensures ["1"] != ["2"] && ["1"] != ["3"] && ["2"] != ["3"]
  {
    assert ["1"][0] != ["2"][0] && ["1"][0] != ["3"][0] && ["2"][0] != ["3"][0];
  }

  lemma PriceIndexes()
    ensures IndexOf(priceRowsA, ["id"]) == priceIndexA
    ensures IndexOf(priceRowsB, ["id"]) == priceIndexB
  {
    var a1, a2, b2, b3 := priceRowsA[0], priceRowsA[1], priceRowsB[0], priceRowsB[1];
    assert KeyOf(a1, ["id"]) == ["1"] && KeyOf(a2, ["id"]) == ["2"];
    assert KeyOf(b2, ["id"]) == ["2"] && KeyOf(b3, ["id"]) == ["3"];
    assert priceRowsA[..1] == [a1] && [a1][..0] == [];
    assert priceRowsB[..1] == [b2] && [b2][..0] == [];
  }

  lemma PriceKeySets()
    ensures SortedKeys(priceIndexA.Keys - priceIndexB.Keys) == [["1"]]
    ensures SortedKeys(priceIndexB.Keys - priceIndexA.Keys) == [["3"]]
    ensures SortedKeys(priceIndexA.Keys * priceIndexB.Keys) == [["2"]]
  {
    DistinctKeys();
    assert priceIndexA.Keys == {["1"], ["2"]} && priceIndexB.Keys == {["2"], ["3"]};
    assert priceIndexA.Keys - priceIndexB.Keys == {["1"]};
    assert priceIndexB.Keys - priceIndexA.Keys == {["3"]};
    assert priceIndexA.Keys * priceIndexB.Keys == {["2"]};
    SingletonSorted(["1"]);
    SingletonSorted(["2"]);
    SingletonSorted(["3"]);
  }

  lemma PriceDifferences()
    ensures DiffRows(["id"], Differences(priceIndexA, priceIndexB, [["2"]], ["price"]))
      == [map["id" := "2", "column" := "price", "value_file1" := "20", "value_file2" := "25"]]
  {
    var d := Difference(["2"], "price", "20", "25");
    assert Differences(priceIndexA, priceIndexB, [["2"]], ["price"]) == [d] by {
      DistinctKeys();
      assert priceIndexA[["2"]] == priceRowsA[1] && priceIndexB[["2"]] == priceRowsB[0];
      DifferencesOfOneKey(priceIndexA, priceIndexB, ["2"], "price");
    }
    assert DiffRows(["id"], [d]) == [DiffRow(["id"], d)];
    assert KeyFields(["id"], ["2"]) == map["id" := "2"];
  }

  lemma PriceCompare()
    ensures Compare(priceIndexA, priceIndexB, ["id"], ["price"])
      == Compared([priceRowsA[0]], [priceRowsB[1]],
                  [map["id" := "2", "column" := "price", "value_file1" := "20", "value_file2" := "25"]])
  {
    PriceKeySets();
    PriceDifferences();
    assert Lookup(priceIndexA, [["1"]]) == [priceRowsA[0]];
    assert Lookup(priceIndexB, [["3"]]) == [priceRowsB[1]];
  }

  /** Key 1 is only in the first dataset, key 3 only in the second, and
      key 2 has prices 20 and 25. */
  lemma PriceScenario()
    ensures Reconciled(priceRowsA, priceRowsB, ["id"], ["price"])
      == Ok(Compared([priceRowsA[0]], [priceRowsB[1]],
                     [map["id" := "2", "column" := "price", "value_file1" := "20", "value_file2" := "25"]]))
  {
    PriceChecked();
    PriceIndexes();
    PriceCompare();
  }

  /** Both price datasets have rows with the columns `id` and `price`. */
  lemma PriceChecked()
    ensures Checked(priceRowsA, priceRowsB, ["id"], ["price"])
  {
    assert CompareColumnError(["price"], priceRowsA[0], priceRowsB[0]) == None;
    assert FirstMissing(["id"], priceRowsA[0]) == None;
    assert FirstMissing(["id"], priceRowsB[0]) == None;
  }

  /** One shared key and one compare column. */
  lemma DifferencesOfOneKey(idxA: Index, idxB: Index, k: Key, c: string)
    requires k in idxA && k in idxB
    ensures var vA, vB := Get(idxA[k], c), Get(idxB[k], c);
      Differences(idxA, idxB, [k], [c]) == if vA != vB then [Difference(k, c, vA, vB)] else []
  {
    assert [k][..0] == [] && [c][..0] == [];
  }

  /** The ascending arrangement of one key is that key alone. */
  lemma SingletonSorted(k: Key)
    ensures SortedKeys({k}) == [k]
  {
    var r := SortedKeys({k});
    assert r[0] in {k};
  }
}
