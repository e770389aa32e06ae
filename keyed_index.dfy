/** The keyed index builder: a mapping from each row's composite key to
    the row, where a later row with an equal key replaces an earlier one. */
module KeyedIndex {
  import opened Records

  /** The composite key of `r`: its value in each key column, in order,
      with the empty text for a field the record lacks. */
  function KeyOf(r: Record, keyColumns: seq<string>): (k: Key)
    ensures |k| == |keyColumns|
  {
    seq(|keyColumns|, i requires 0 <= i < |keyColumns| => Get(r, keyColumns[i]))
  }

  /** Records that agree on the key columns (counting a missing field as
      empty) have the same composite key; the other fields do not matter. */
  lemma KeyOfDependsOnlyOnKeyColumns(r: Record, s: Record, keyColumns: seq<string>)
    requires forall c :: c in keyColumns ==> Get(r, c) == Get(s, c)
    ensures KeyOf(r, keyColumns) == KeyOf(s, keyColumns)
  {
  }

  /** The index after inserting every row of `rows` in order. */
  function IndexOf(rows: seq<Record>, keyColumns: seq<string>): (index: map<Key, Record>)
    ensures |index| <= |rows|
    decreases |rows|
  {
    if rows == [] then map[]
    else
      var last := rows[|rows| - 1];
      IndexOf(rows[..|rows| - 1], keyColumns)[KeyOf(last, keyColumns) := last]
  }

  /** Every row in the index is stored under its own composite key. */
  lemma {:induction false} IndexStoresRowsUnderTheirKeys(rows: seq<Record>, keyColumns: seq<string>)
    ensures forall k :: k in IndexOf(rows, keyColumns) ==>
      KeyOf(IndexOf(rows, keyColumns)[k], keyColumns) == k && |k| == |keyColumns|
    decreases |rows|
  {
    if rows != [] {
      IndexStoresRowsUnderTheirKeys(rows[..|rows| - 1], keyColumns);
    }
  }

  /** The composite keys that occur in `rows`. */
  ghost function KeysOf(rows: seq<Record>, keyColumns: seq<string>): set<Key>
  {
    set i | 0 <= i < |rows| :: KeyOf(rows[i], keyColumns)
  }

  /** `index_by_keys`: an empty dataset gives the empty index; otherwise the
      first key column missing from the first row is an error, raised before
      any row is indexed; otherwise every row is inserted in order. */
  method IndexByKeys(rows: seq<Record>, keyColumns: seq<string>) returns (res: Result<map<Key, Record>>)
    ensures rows == [] ==> res == Ok(map[])
    ensures rows != [] && FirstMissing(keyColumns, rows[0]).Some? ==>
      res == Err(KeyColumnNotFound(FirstMissing(keyColumns, rows[0]).value))
    ensures rows != [] && FirstMissing(keyColumns, rows[0]).None? ==>
      res == Ok(IndexOf(rows, keyColumns))
  {
    if rows == [] {
      return Ok(map[]);
    }
    var j := 0;
    while j < |keyColumns|
      invariant 0 <= j <= |keyColumns|
      invariant FirstMissing(keyColumns[j..], rows[0]) == FirstMissing(keyColumns, rows[0])
    {
      if keyColumns[j] !in rows[0] {
        return Err(KeyColumnNotFound(keyColumns[j]));
      }
      assert keyColumns[j..][1..] == keyColumns[j + 1..];
      j := j + 1;
    }
    var index: map<Key, Record> := map[];
    var i := 0;
    while i < |rows|
      invariant 0 <= i <= |rows|
      invariant index == IndexOf(rows[..i], keyColumns)
    {
      var key := KeyOf(rows[i], keyColumns);
      index := index[key := rows[i]];
      assert rows[..i + 1][..i] == rows[..i];
      i := i + 1;
    }
    assert rows[..|rows|] == rows;
    return Ok(index);
  }

  /** The keys of a dataset are those of all rows but the last, and the
      last row's key. */
  lemma KeysOfSnoc(rows: seq<Record>, keyColumns: seq<string>)
    requires rows != []
    ensures KeysOf(rows, keyColumns) ==
      KeysOf(rows[..|rows| - 1], keyColumns) + {KeyOf(rows[|rows| - 1], keyColumns)}
  {
    var n := |rows| - 1;
    forall k | k in KeysOf(rows, keyColumns)
      ensures k in KeysOf(rows[..n], keyColumns) + {KeyOf(rows[n], keyColumns)}
    {
      var i :| 0 <= i < |rows| && KeyOf(rows[i], keyColumns) == k;
      if i < n {
        assert rows[..n][i] == rows[i];
      }
    }
    forall k | k in KeysOf(rows[..n], keyColumns)
      ensures k in KeysOf(rows, keyColumns)
    {
      var i :| 0 <= i < n && KeyOf(rows[..n][i], keyColumns) == k;
      assert rows[..n][i] == rows[i];
    }
  }

  /** The index holds one entry per distinct composite key of the rows. */
  lemma {:induction false} IndexKeys(rows: seq<Record>, keyColumns: seq<string>)
    ensures IndexOf(rows, keyColumns).Keys == KeysOf(rows, keyColumns)
    ensures |IndexOf(rows, keyColumns)| == |KeysOf(rows, keyColumns)|
    decreases |rows|
  {
    if rows != [] {
      IndexKeys(rows[..|rows| - 1], keyColumns);
      KeysOfSnoc(rows, keyColumns);
    }
  }

  /** Last write wins: a row that no later row shares its key with is the
      one the index keeps for that key. */
  lemma {:induction false} IndexKeepsLastRow(rows: seq<Record>, keyColumns: seq<string>, i: int)
    requires 0 <= i < |rows|
    requires forall j :: i < j < |rows| ==> KeyOf(rows[j], keyColumns) != KeyOf(rows[i], keyColumns)
    ensures KeyOf(rows[i], keyColumns) in IndexOf(rows, keyColumns)
    ensures IndexOf(rows, keyColumns)[KeyOf(rows[i], keyColumns)] == rows[i]
    decreases |rows|
  {
    var n := |rows| - 1;
    if i < n {
      forall j | i < j < n
        ensures KeyOf(rows[..n][j], keyColumns) != KeyOf(rows[..n][i], keyColumns)
      {
        assert rows[..n][j] == rows[j];
      }
      IndexKeepsLastRow(rows[..n], keyColumns, i);
      assert rows[..n][i] == rows[i];
    }
  }

  /** Conversely, every entry of the index is the last row with that key. */
  lemma {:induction false} IndexEntryIsLastRow(rows: seq<Record>, keyColumns: seq<string>, k: Key)
    returns (i: int)
    requires k in IndexOf(rows, keyColumns)
    ensures 0 <= i < |rows| && KeyOf(rows[i], keyColumns) == k
    ensures IndexOf(rows, keyColumns)[k] == rows[i]
    ensures forall j :: i < j < |rows| ==> KeyOf(rows[j], keyColumns) != k
    decreases |rows|
  {
    var n := |rows| - 1;
    if KeyOf(rows[n], keyColumns) == k {
      i := n;
    } else {
      i := IndexEntryIsLastRow(rows[..n], keyColumns, k);
      assert rows[..n][i] == rows[i];
      forall j | i < j < |rows|
        ensures KeyOf(rows[j], keyColumns) != k
      {
        if j < n {
          assert rows[..n][j] == rows[j];
        }
      }
    }
  }

  /** Without duplicate keys the index has exactly one entry per row. */
  lemma {:induction false} IndexSizeWithoutDuplicates(rows: seq<Record>, keyColumns: seq<string>)
    requires forall i, j :: 0 <= i < j < |rows| ==> KeyOf(rows[i], keyColumns) != KeyOf(rows[j], keyColumns)
    ensures |IndexOf(rows, keyColumns)| == |rows|
    decreases |rows|
  {
    if rows != [] {
      var n := |rows| - 1;
      forall i, j | 0 <= i < j < n
        ensures KeyOf(rows[..n][i], keyColumns) != KeyOf(rows[..n][j], keyColumns)
      {
        assert rows[..n][i] == rows[i] && rows[..n][j] == rows[j];
      }
      IndexSizeWithoutDuplicates(rows[..n], keyColumns);
      assert KeyOf(rows[n], keyColumns) !in IndexOf(rows[..n], keyColumns) by {
        IndexKeys(rows[..n], keyColumns);
        forall i | 0 <= i < n
          ensures KeyOf(rows[..n][i], keyColumns) != KeyOf(rows[n], keyColumns)
        {
          assert rows[..n][i] == rows[i];
        }
      }
    }
  }

  /** Two rows with key "1": the index keeps one entry, the second row. */
  lemma LastWriteWinsExample()
    ensures var first := map["id" := "1", "v" := "a"];
      var second := map["id" := "1", "v" := "b"];
      IndexOf([first, second], ["id"]) == map[["1"] := second]
  {
    var first := map["id" := "1", "v" := "a"];
    var second := map["id" := "1", "v" := "b"];
    assert KeyOf(first, ["id"]) == ["1"];
    assert KeyOf(second, ["id"]) == ["1"];
    assert [first, second][..1] == [first];
    assert [first] [..0] == [];
  }
}
