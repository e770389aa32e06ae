# compareCSV core, modelled in Dafny

This project models the computational core of `compareCSV.py`, a small tool that filters and reconciles CSV datasets. A dataset is a sequence of records. Each record maps a field name to a text value (`map<string, string>`). The first record's fields stand for the header.

The model covers:

- **Keyed index builder** (`index_by_keys`). It maps each record's composite key (its values in the key columns, empty text for a missing field) to the record. A later record with an equal key replaces an earlier one. A key column missing from the first record is an error, raised before any record is indexed.
- **Reconciler** (the computation inside `compare_csv_by_keys`). It takes two datasets, key columns and compare columns, and returns one of three outcomes:
  - `EmptyA` or `EmptyB`: one of the datasets is empty.
  - `Compared(onlyA, onlyB, diffs)`, where
    - `onlyA` holds the rows only in the first dataset, in ascending key order;
    - `onlyB` holds the rows only in the second dataset, in ascending key order;
    - `diffs` holds the difference rows (`key columns…, column, value_file1, value_file2`), in ascending key order and, within a key, in compare-column order.

  Otherwise it fails with a schema error. The checks run in this order:
  1. empty first dataset;
  2. empty second dataset;
  3. each compare column against the first header and then the second;
  4. the key columns against the first dataset, then the second.
- **Predicate filters**:
  - exact match (`filter_rows_by_column`);
  - exact match with its complement (`filter_rows_by_column_value`);
  - prefix match with case and trimming toggles (`filter_rows_by_column_prefix`);
  - the `\b(cuba\w*)\b` case-insensitive token match (`filter_rows_name_matches_cuba`).

  Each filter returns an empty result for an empty dataset and fails when the column is missing from the first record.

The Python code is mostly loops over lists and dicts. The index builder and the reconciler are therefore `method`s with `while` loops. Each is proved equal to a specification function: `KeyedIndex.IndexOf` for the index and `Reconciler.Reconciled` for the reconciler. The properties are then proved as lemmas about those functions.

- `sorted(...)` on a set of key tuples is the ghost function `KeyOrder.SortedKeys`. It gives the unique strictly ascending arrangement under Python's lexicographic tuple and string order.
- `KeyOrder.SortKeys` computes that arrangement by repeated selection of the least key.
- The list comprehensions of the filters are pure, so they are functions over `Records.Select`.

Modules and files:

- `records.dfy`: records, keys, schema errors, `Select`, `Interleaves`.
- `text.dfy`: ASCII whitespace, lower-casing, `strip`, `\w`.
- `filters.dfy`: the four filters.
- `key_order.dfy`: key order and sorting.
- `keyed_index.dfy`: the index builder.
- `reconciler.dfy`: the reconciler.
- `reconciler_properties.dfy`: the reconciler's properties.

Three behaviours of the code are worth knowing:

- **Empty key and compare column lists are accepted.** The code does not reject them. An empty key-column list gives every record the empty key.
- **Exact match does not default a missing field.** The exact filters use `r.get(column)` with no default. A record lacking the field never matches, not even the empty value (`Filters.MissingFieldNeverMatches`).
- **"Cubalibre!" matches the token filter.** The trailing `\w*` is greedy and `!` is a boundary, so the match succeeds (`Filters.CubaExamples`).

## Model

| member | source | states |
|---|---|---|
| Records.FirstMissing | compareCSV.py:185-187 | no column is reported exactly when every column is in the header; a reported column is missing, and every column before it is present |
| Records.Select | compareCSV.py:30 | the comprehension keeps exactly the elements satisfying the condition and is no longer than its input |
| Records.SelectPartition | compareCSV.py:61-62 | selecting by a condition and by its negation interleaves the input: each element goes to exactly one side, in input order |
| Records.InterleavesSplits | compareCSV.py:61-62 | the two sides of an interleaving have sizes and multisets that add up to the input's |
| Text.IsSpace | compareCSV.py:109 | the characters `str.strip()` removes, restricted to ASCII: tab, line feed, vertical tab, form feed, carriage return, the four separators 28-31 and space |
| Text.IsWordChar | compareCSV.py:158 | the characters `\w` matches, restricted to ASCII: letters, digits and underscore |
| Text.StartsWith | compareCSV.py:110 | `str.startswith`: the prefix is no longer than the text and equals its first characters |
| Text.LowerChar | compareCSV.py:106 | `str.lower` on one character: upper-case ASCII letters move to lower case, every other character is unchanged, and whitespace and word characters are preserved |
| Text.Lower | compareCSV.py:110 | `str.lower` keeps the length and lower-cases each position |
| Text.TrimLeft | compareCSV.py:109 | the result is a suffix starting with a non-space; everything removed is whitespace |
| Text.TrimRight | compareCSV.py:109 | the result is a prefix ending with a non-space; everything removed is whitespace |
| Text.Strip | compareCSV.py:109 | `str.strip`: the result is an infix that neither starts nor ends with whitespace, and everything outside it is whitespace |
| Text.StripLowerCommute | compareCSV.py:108-110 | stripping then lower-casing equals lower-casing then stripping |
| Records.Get | compareCSV.py:274-275 | `r.get(col, "")`: a missing field reads as the empty text; `KeyedIndex.KeyOfDependsOnlyOnKeyColumns` and `Filters.PrefixOfMissingValue` state what that means for keys and prefixes |
| Filters.ExactMatch | compareCSV.py:61 | `r.get(column) == value`; `Filters.MissingFieldNeverMatches` proves a record lacking the field never matches |
| Filters.FilterByColumn | compareCSV.py:23-30 | an empty dataset gives `[]`; a column missing from the first row is `ColumnNotFound`; otherwise the result holds exactly the rows having the field with that value |
| Filters.FilterByColumnValue | compareCSV.py:54-62 | an empty dataset gives two empty lists; a missing column is an error; otherwise matched and unmatched interleave the input, every matched row matches and no unmatched row does |
| Filters.ComplementPartitions | compareCSV.py:61-62 | matched and unmatched sizes add up to the input size, and their multisets add up to the input's |
| Filters.ExactFiltersAgree | compareCSV.py:30 | the plain exact filter fails exactly when the complement variant does, and otherwise returns its matched half |
| Filters.MissingFieldNeverMatches | compareCSV.py:61-62 | a row lacking the field is never matched, lands in the complement, and is not returned by the plain filter |
| Filters.Normalized | compareCSV.py:107-116 | the value as `starts` compares it, stripped when `trim` is set and lower-cased when case is ignored; `Filters.PrefixIgnoresPadding` and `Filters.PrefixCaseInsensitiveIgnoresCase` state what each step makes irrelevant |
| Filters.PrefixMatches | compareCSV.py:105-116 | the `starts` closure; `Filters.PrefixPlain` proves it is plain `startswith` when case-sensitive and untrimmed, and `Filters.PrefixCaseSensitiveImpliesInsensitive` relates the two case modes |
| Filters.FilterByPrefix | compareCSV.py:99-118 | an empty dataset gives `[]`; a missing column is an error; otherwise the result holds exactly the rows whose value (empty when absent) passes the prefix test, in input order with repetitions kept: it interleaves with the failing rows to give the input |
| Filters.PrefixPlain | compareCSV.py:112-116 | case-sensitive and untrimmed, the test is plain `startswith` |
| Filters.PrefixIgnoresPadding | compareCSV.py:108-109 | with trimming, a leading or trailing whitespace character of the value never changes the outcome |
| Filters.PrefixCaseSensitiveImpliesInsensitive | compareCSV.py:105-116 | a case-sensitive match is also a case-insensitive match |
| Filters.PrefixCaseInsensitiveIgnoresCase | compareCSV.py:105-110 | case-insensitively, lower-casing the value or the prefix beforehand changes nothing |
| Filters.PrefixOfMissingValue | compareCSV.py:118 | a missing field reads as empty text, which only the empty prefix matches |
| Filters.PrefixExample | compareCSV.py:105-116 | "abcdef" and "ABCxyz" start with "AB" case-insensitively; "abcdef" does not case-sensitively |
| Filters.IsBoundary | compareCSV.py:158 | `\b`: exactly one of the characters on either side of the position is a word character, the text's ends counting as non-word |
| Filters.RegexMatchAt | compareCSV.py:158 | one match of `\b(cuba\w*)\b` ignoring case: a boundary, four characters lower-casing to "cuba", word characters only, and a boundary at the end |
| Filters.RegexFinds | compareCSV.py:163 | `pattern.search(val) is not None`: some span of the value is a match |
| Filters.TokenAt | compareCSV.py:158 | "cuba", in any case, starts at the position, with no word character just before it |
| Filters.ScanFrom | compareCSV.py:163 | some token starts at or after the position; `Filters.ScanFromFinds` and `Filters.ScanFromWitness` prove both directions |
| Filters.ScanFromFinds | compareCSV.py:163 | a token at or after the start makes the scan succeed |
| Filters.ScanFromWitness | compareCSV.py:163 | a successful scan yields a position, at or after the start, where a token starts |
| Filters.MatchesCuba | compareCSV.py:160-163 | the `matches` closure: false for the empty value; `Filters.MatchesCubaIsRegexSearch` proves it equals a `\b(cuba\w*)\b` search |
| Filters.FilterCuba | compareCSV.py:150-165 | an empty dataset gives `[]`; a missing column is an error; otherwise the result holds exactly the rows whose value (empty when absent) passes the token test, in input order with repetitions kept: it interleaves with the failing rows to give the input |
| Filters.MatchesCubaIsRegexSearch | compareCSV.py:158-163 | the value test holds exactly when `\b(cuba\w*)\b` has a case-insensitive match in the value |
| Filters.CubaExamples | compareCSV.py:158-163 | "Cuba", "Cuban Sandwich" and "Cubalibre!" match; "Aruba", "xcuba" and the empty value do not |
| KeyOrder.LexLess | compareCSV.py:245 | lexicographic order on sequences: the first differing position decides, and a proper prefix comes first |
| KeyOrder.StringLess | compareCSV.py:245 | Python's `<` on `str`: lexicographic by code point |
| KeyOrder.KeyLess | compareCSV.py:245 | Python's `<` on tuples of `str`, the order `sorted` uses at lines 245, 249, 260, 264 and 270: lexicographic by element, each element compared by `StringLess` |
| KeyOrder.Sorted | compareCSV.py:245 | strictly ascending under `KeyLess`, as `sorted` arranges a set's keys |
| KeyOrder.StringLessIsStrictTotalOrder | compareCSV.py:245 | Python's `<` on strings is irreflexive, transitive and total |
| KeyOrder.KeyLessIrreflexive | compareCSV.py:245 | no key tuple is less than itself |
| KeyOrder.KeyLessTransitive | compareCSV.py:245 | the tuple order is transitive |
| KeyOrder.KeyLessTotal | compareCSV.py:245 | any two distinct key tuples are ordered one way or the other |
| KeyOrder.SortedKeys | compareCSV.py:245 | `sorted(set)`: strictly ascending, the same size as the set, with exactly its members |
| KeyOrder.SortedUnique | compareCSV.py:245 | two strictly ascending sequences with the same members are equal |
| KeyOrder.LeastKey | compareCSV.py:245 | the key found is in the set and less than every other member |
| KeyOrder.SortKeys | compareCSV.py:245 | the keys by repeated selection are exactly `sorted(set)` |
| KeyedIndex.KeyOf | compareCSV.py:191 | the composite key has one value per key column |
| KeyedIndex.KeyOfDependsOnlyOnKeyColumns | compareCSV.py:191 | records that agree on the key columns, with missing fields read as empty, have the same key |
| KeyedIndex.IndexOf | compareCSV.py:189-193 | the index has at most as many entries as there are rows |
| KeyedIndex.IndexStoresRowsUnderTheirKeys | compareCSV.py:190-192 | every entry is stored under its own row's composite key, which has one value per key column |
| KeyedIndex.IndexByKeys | compareCSV.py:177-193 | no rows gives the empty index; otherwise the first key column missing from the first row is `KeyColumnNotFound`, whatever the other rows are; otherwise the result is every row inserted in order |
| KeyedIndex.KeysOf | compareCSV.py:231-232 | the set of composite keys of a dataset's rows; `KeyedIndex.IndexKeys` proves it is `set(idx.keys())` |
| KeyedIndex.KeysOfSnoc | compareCSV.py:189-192 | the keys of a dataset are the keys of all rows but the last, plus the last row's key |
| KeyedIndex.IndexKeys | compareCSV.py:189-193 | the index's keys are exactly the rows' composite keys, one entry per distinct key |
| KeyedIndex.IndexKeepsLastRow | compareCSV.py:192 | last write wins: a row whose key no later row repeats is the entry for that key |
| KeyedIndex.IndexEntryIsLastRow | compareCSV.py:192 | every entry is a row of the input with that key, and no later row has the key |
| KeyedIndex.IndexSizeWithoutDuplicates | compareCSV.py:189-193 | without duplicate keys the index has exactly one entry per row |
| KeyedIndex.LastWriteWinsExample | compareCSV.py:190-192 | two rows with id "1" give one entry, holding the second row |
| Reconciler.CompareColumnError | compareCSV.py:222-226 | no error exactly when every compare column is in both headers; otherwise the first failing column is reported, against the first file when it is missing there and else against the second |
| Reconciler.Lookup | compareCSV.py:245-246 | one index entry per key, in the order of the keys |
| Reconciler.ColumnDiffs | compareCSV.py:273-276 | at most one difference per compare column |
| Reconciler.Differences | compareCSV.py:269-276 | the disagreements of the shared keys, key by key; `ReconcilerProperties.DifferencesSound`, `DifferencesComplete`, `DifferencesInKeyOrder`, `DifferencesOfKey` and `DifferencesBound` state what they are, their order and their number |
| Reconciler.KeyFields | compareCSV.py:278-280 | the key part of `row_out`; `ReconcilerProperties.KeyFieldsKeys` and `KeyFieldsHoldKey` prove its fields are the key columns, each holding the key value of its last occurrence |
| Reconciler.IsReserved | compareCSV.py:281-283 | the three field names a difference row writes after the key columns: `column`, `value_file1`, `value_file2` |
| Reconciler.DiffRow | compareCSV.py:278-283 | `row_out`; `ReconcilerProperties.DiffRowFields` proves its fields and values and `DiffRowSwap` its behaviour under a swap |
| Reconciler.DiffRows | compareCSV.py:278-284 | one difference row per difference |
| Reconciler.DiffRowsAppend | compareCSV.py:284 | the rows of two runs of differences, joined, are the rows of the joined runs |
| Reconciler.LookupAll | compareCSV.py:245-246 | the loop collects the index entries of the sorted keys |
| Reconciler.BuildDiffRow | compareCSV.py:278-283 | the loop builds the key fields one key column at a time, then the three reserved fields |
| Reconciler.CollectKeyDiffs | compareCSV.py:273-284 | the inner loop appends the difference rows of one key, in compare-column order |
| Reconciler.CollectDiffs | compareCSV.py:269-284 | the outer loop appends the difference rows of the sorted shared keys, key by key |
| Reconciler.Compare | compareCSV.py:231-284 | the three result sets of two indexes: sorted one-sided rows and the rows of the sorted shared keys' differences; `ReconcilerProperties.OnlyInFirst`, `OnlyInSecond`, `KeySetsPartition`, `ReconcileDiffs` and `ReconcileDiffsInColumnOrder` state what each holds |
| Reconciler.Reconciled | compareCSV.py:211-284 | the reconciliation with its checks in source order; `ReconcilerProperties.ComparedIffChecked` proves it reaches the comparison exactly when every check passes |
| Reconciler.Reconcile | compareCSV.py:211-284 | an empty first dataset gives `EmptyA`, else an empty second gives `EmptyB`, else a compare-column error comes before any indexing; in every case the result is the reconciliation specification |
| ReconcilerProperties.ColumnDiffsSound | compareCSV.py:273-276 | each difference of one key is under that key, for a compare column, with the two records' values (empty when absent), which differ |
| ReconcilerProperties.ColumnDiffsComplete | compareCSV.py:273-276 | every compare column on which the two records disagree yields a difference |
| ReconcilerProperties.DifferingColumns | compareCSV.py:273-276 | exactly the compare columns on which the two records disagree (missing fields read as empty) |
| ReconcilerProperties.ColumnDiffsInColumnOrder | compareCSV.py:273-276 | the difference columns of one key are the disagreeing compare columns, in compare-column order |
| ReconcilerProperties.ColumnDiffsOfSame | compareCSV.py:276 | a record never disagrees with itself |
| ReconcilerProperties.DifferencesSound | compareCSV.py:270-276 | each difference is for a listed shared key and a compare column, with the two indexed rows' values, which differ |
| ReconcilerProperties.DiffsOfKey | compareCSV.py:269-284 | the differences under one key keep exactly the differences with that key |
| ReconcilerProperties.DiffsOfKeyAppend | compareCSV.py:284 | selecting one key's differences distributes over appending |
| ReconcilerProperties.DifferencesOfKey | compareCSV.py:269-276 | with each shared key listed once, the differences under a shared key are exactly that key's differences for the compare columns, in their order |
| ReconcilerProperties.DifferencesComplete | compareCSV.py:270-276 | every disagreement of a shared key on a compare column is reported |
| ReconcilerProperties.DifferencesBound | compareCSV.py:270-276 | at most (number of shared keys) × (number of compare columns) differences |
| ReconcilerProperties.DifferencesInKeyOrder | compareCSV.py:270-276 | with ascending shared keys, difference keys never descend, so each key's differences are consecutive |
| ReconcilerProperties.DifferencesOfSame | compareCSV.py:270-276 | an index compared with itself gives no differences |
| ReconcilerProperties.Swapped | compareCSV.py:274-276 | a difference seen from the other side has the same key and column, with the two values exchanged |
| ReconcilerProperties.DifferencesSwap | compareCSV.py:270-276 | exchanging the two indexes exchanges the two values of every difference, position by position |
| ReconcilerProperties.ColumnDiffsSwap | compareCSV.py:273-276 | exchanging the two records exchanges the two values of every difference of the key |
| ReconcilerProperties.KeyFieldsKeys | compareCSV.py:279-280 | the key part of a difference row has exactly the key columns as fields |
| ReconcilerProperties.KeyFieldsHoldKey | compareCSV.py:279-280 | a key column holds the key value of its last occurrence among the key columns |
| ReconcilerProperties.DiffRowFields | compareCSV.py:278-283 | a difference row has the key columns plus `column`, `value_file1` and `value_file2`; those three hold the column and the two values; a non-reserved key column holds its key value |
| ReconcilerProperties.DiffRowsPointwise | compareCSV.py:278-284 | the i-th difference row is the row of the i-th difference |
| ReconcilerProperties.SwapValues | compareCSV.py:282-283 | exchanging `value_file1` and `value_file2` keeps the fields and leaves every other field alone |
| ReconcilerProperties.DiffRowSwap | compareCSV.py:278-283 | the row of a swapped difference is the row with its two values exchanged |
| ReconcilerProperties.Checked | compareCSV.py:214-229 | both datasets have rows, every compare column is in both headers, and every key column is in both first rows |
| ReconcilerProperties.ComparedIffChecked | compareCSV.py:214-229 | the three result sets are produced exactly when both datasets have rows and every compare and key column check passes |
| ReconcilerProperties.ReconcileSelf | compareCSV.py:211-284 | reconciling a non-empty dataset with itself, when it succeeds, reports no rows only in either side and no differences |
| ReconcilerProperties.LookupRows | compareCSV.py:245-246 | each row looked up is stored under its key and is the last row of the dataset with that key |
| ReconcilerProperties.OnlyRowKeys | compareCSV.py:245-246 | the rows looked up for a list of indexed keys carry exactly those keys |
| ReconcilerProperties.OnlyRowsOf | compareCSV.py:234-246 | the rows for keys outside a set: one per such key, in strictly ascending key order, each the last row with its key |
| ReconcilerProperties.OnlyInFirst | compareCSV.py:234-250 | the rows only in the first dataset have exactly the keys of the first that the second lacks, one row per key, ascending, each the last row of the first dataset with that key |
| ReconcilerProperties.OnlyInSecond | compareCSV.py:235-265 | the same for the rows only in the second dataset |
| ReconcilerProperties.KeySetsPartition | compareCSV.py:231-236 | the keys of the rows only in the first, of the rows only in the second, and the shared keys are pairwise disjoint and together make up all keys of both datasets |
| ReconcilerProperties.ReconcileDiffs | compareCSV.py:268-284 | the difference rows are, in order, the rows of the differences of the sorted shared keys, and those differences are exactly the disagreements (shared key, compare column, differing values); keys ascend; at most (shared keys) × (compare columns) of them |
| ReconcilerProperties.ReconcileDiffsInColumnOrder | compareCSV.py:268-284 | for the same differences as `ReconcileDiffs` (those of the sorted shared keys): within a key present in both datasets, they are for exactly the compare columns on which the indexed rows disagree, in compare-column order |
| ReconcilerProperties.ReconcileSwap | compareCSV.py:211-284 | the checks pass for (A, B) exactly when they pass for (B, A); then swapping the datasets swaps the one-sided rows and exchanges the two values of each difference row |
| ReconcilerProperties.PriceScenario | compareCSV.py:211-284 | with ids 1, 2 against 2, 3 and prices 20 against 25 for id 2, the result is the row of id 1, the row of id 3, and one difference row for id 2 on price |
| ReconcilerProperties.PriceChecked | compareCSV.py:214-229 | the example datasets pass every check |
| ReconcilerProperties.PriceIndexes | compareCSV.py:189-193 | the two example datasets index as expected |
| ReconcilerProperties.PriceKeySets | compareCSV.py:234-236 | the example's one-sided and shared keys, sorted |
| ReconcilerProperties.PriceDifferences | compareCSV.py:270-284 | the example's single difference row |
| ReconcilerProperties.PriceCompare | compareCSV.py:234-284 | the comparison of the example's two indexes gives the row of id 1, the row of id 3 and the difference row for id 2 |

## Left out

- Reading and writing CSV files (`read_csv`, `csv.DictWriter`), all console output, and the `main` entry point with its hard-coded file names. Datasets are parameters; results are returned values.
- The output-path arguments and the files written. In `compare_csv_by_keys`, an empty one-sided key set or an empty difference list writes no file. The filters write a file whenever a path is given, with only the header when nothing matches. An empty dataset returns before any write. The model returns the result sets and does not model whether a file is created.
- Unicode: `str.strip`, `str.lower` and the regular expression's `\w`, `\b` and case-insensitivity are modelled over ASCII only. Non-ASCII whitespace, letters and case mappings are treated as ordinary non-word characters.
- The algorithm of Python's `sorted`. Only its result is modelled, as the unique ascending arrangement of the set. `KeyOrder.SortKeys` computes it by selection.
- Filters.FilterByColumnValue: takes the column and the value as parameters. The source hard-codes the column `Attribute 2 value(s)` and defaults the value to `77`; the filtering logic is the same.
- Filters.FilterCuba and Filters.FilterByPrefix: the source's default arguments are left to the caller. These are `column_name="Name"` for the token filter, and `case_sensitive=True` and `trim=True` for the prefix filter. The model takes every argument explicitly.
- Ragged CSV rows, such as extra fields under a `None` key or missing trailing fields. A record is any map from field name to text.
- Reconciler.DiffRow: a key column named `column`, `value_file1` or `value_file2` is overwritten by the reserved field, as in the source. `ReconcilerProperties.DiffRowFields` therefore states key values only for non-reserved key columns.
- Reconciler.KeyFields: is total. A key with fewer values than key columns reads the missing ones as empty. The reconciler only ever passes keys with one value per key column.
