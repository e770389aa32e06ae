/** Records, composite keys, the schema errors every operation can raise,
    and the two sequence shapes the filters and the reconciler share:
    order-preserving selection and the interleaving of two selections. */
module Records {

  /** One row of a dataset: field name to text value. */
  type Record = map<string, string>

  /** A composite key: one text value per key column, in key-column order. */
  type Key = seq<string>

  datatype Option<T> = None | Some(value: T)

  /** Which dataset a missing column was looked up in. */
  datatype Dataset = Input | File1 | File2

  /** A required field name is absent from a dataset's header row. */
  datatype SchemaError =
    | ColumnNotFound(column: string, dataset: Dataset)
    | KeyColumnNotFound(column: string)

  datatype Result<T> = Ok(value: T) | Err(error: SchemaError)

  /** The field's value, or the empty text when the record lacks the field. */
  function Get(r: Record, column: string): string
  {
    if column in r then r[column] else ""
  }

  /** The first of `columns` (in their given order) that the header lacks. */
  function FirstMissing(columns: seq<string>, header: Record): (m: Option<string>)
    ensures m.None? <==> forall c :: c in columns ==> c in header
    ensures m.Some? ==>
      exists i :: 0 <= i < |columns| && columns[i] == m.value && m.value !in header
        && forall j :: 0 <= j < i ==> columns[j] in header
  {
    if columns == [] then None
    else if columns[0] !in header then Some(columns[0])
    else
      var m := FirstMissing(columns[1..], header);
      assert forall c :: c in columns ==> c == columns[0] || c in columns[1..];
      m
  }

  /** The elements of `s` that satisfy `p`, in their original order. */
  function Select<T(!new)>(s: seq<T>, p: T -> bool): (r: seq<T>)
    ensures |r| <= |s|
    ensures forall x :: x in r <==> x in s && p(x)
    decreases |s|
  {
    if s == [] then []
    else
      var init := Select(s[..|s| - 1], p);
      assert s == s[..|s| - 1] + [s[|s| - 1]];
      if p(s[|s| - 1]) then init + [s[|s| - 1]] else init
  }

  lemma {:induction false} SelectSame<T(!new)>(s: seq<T>, p: T -> bool, q: T -> bool)
    requires forall x :: p(x) == q(x)
    ensures Select(s, p) == Select(s, q)
    decreases |s|
  {
    if s != [] {
      SelectSame(s[..|s| - 1], p, q);
    }
  }

  /** `s` is a merge of `a` and `b`: every element of `s` goes to exactly one
      of them, and each keeps the relative order it had in `s`. */
  predicate Interleaves<T(==)>(s: seq<T>, a: seq<T>, b: seq<T>)
    decreases |s|
  {
    if s == [] then a == [] && b == []
    else
      var x := s[|s| - 1];
      || (a != [] && a[|a| - 1] == x && Interleaves(s[..|s| - 1], a[..|a| - 1], b))
      || (b != [] && b[|b| - 1] == x && Interleaves(s[..|s| - 1], a, b[..|b| - 1]))
  }

  lemma {:induction false} InterleavesSplits<T>(s: seq<T>, a: seq<T>, b: seq<T>)
    requires Interleaves(s, a, b)
    ensures |a| + |b| == |s|
    ensures multiset(a) + multiset(b) == multiset(s)
    decreases |s|
  {
    if s != [] {
      var n := |s| - 1;
      assert s == s[..n] + [s[n]];
      if a != [] && a[|a| - 1] == s[n] && Interleaves(s[..n], a[..|a| - 1], b) {
        InterleavesSplits(s[..n], a[..|a| - 1], b);
        assert a == a[..|a| - 1] + [a[|a| - 1]];
      } else {
        InterleavesSplits(s[..n], a, b[..|b| - 1]);
        assert b == b[..|b| - 1] + [b[|b| - 1]];
      }
    }
  }

  /** Selecting by `p` and by its negation splits `s` into an interleaving. */
  lemma {:induction false} SelectPartition<T(!new)>(s: seq<T>, p: T -> bool, q: T -> bool)
    requires forall x :: q(x) == !p(x)
    ensures Interleaves(s, Select(s, p), Select(s, q))
    decreases |s|
  {
    if s != [] {
      var n := |s| - 1;
      SelectPartition(s[..n], p, q);
      var a, b := Select(s, p), Select(s, q);
      if p(s[n]) {
        assert a[..|a| - 1] == Select(s[..n], p);
      } else {
        assert b[..|b| - 1] == Select(s[..n], q);
      }
    }
  }
}
