/** The predicate filters: exact match (alone and with its complement),
    prefix match with case and trimming toggles, and the "cuba" token match.
    Each rejects a column missing from the first row and returns an empty
    result for an empty dataset. */
module Filters {
  import opened Records
  import opened Text

  // ---------------------------------------------------------------------
  // Exact match

  /** `r.get(column) == value`: a record that lacks the field never
      matches, not even the empty value. */
  predicate ExactMatch(r: Record, column: string, value: string)
  {
    column in r && r[column] == value
  }

  /** Rows whose `column` equals `value`, in input order. */
  function FilterByColumn(rows: seq<Record>, column: string, value: string): (res: Result<seq<Record>>)
    ensures rows == [] ==> res == Ok([])
    ensures rows != [] && column !in rows[0] ==> res == Err(ColumnNotFound(column, Input))
    ensures res.Ok? <==> rows == [] || column in rows[0]
    ensures res.Ok? ==> forall r :: r in res.value <==> r in rows && column in r && r[column] == value
  {
    if rows == [] then Ok([])
    else if column !in rows[0] then Err(ColumnNotFound(column, Input))
    else Ok(Select(rows, r => ExactMatch(r, column, value)))
  }

  /** Rows whose `column` equals `value` and the rows whose does not, both
      in input order: together they are an interleaving of the input. */
  function FilterByColumnValue(rows: seq<Record>, column: string, value: string)
    : (res: Result<(seq<Record>, seq<Record>)>)
    ensures rows == [] ==> res == Ok(([], []))
    ensures rows != [] && column !in rows[0] ==> res == Err(ColumnNotFound(column, Input))
    ensures res.Ok? <==> rows == [] || column in rows[0]
    ensures res.Ok? ==> Interleaves(rows, res.value.0, res.value.1)
    ensures res.Ok? ==> forall r :: r in res.value.0 ==> column in r && r[column] == value
    ensures res.Ok? ==> forall r :: r in res.value.1 ==> !(column in r && r[column] == value)
  {
    if rows == [] then Ok(([], []))
    else if column !in rows[0] then Err(ColumnNotFound(column, Input))
    else
      var isMatch := r => ExactMatch(r, column, value);
      var isOther := r => !ExactMatch(r, column, value);
      SelectPartition(rows, isMatch, isOther);
      Ok((Select(rows, isMatch), Select(rows, isOther)))
  }

  /** The complement variant splits the rows without losing or duplicating
      any: the two counts add up and the multisets add up. */
  lemma ComplementPartitions(rows: seq<Record>, column: string, value: string)
    requires FilterByColumnValue(rows, column, value).Ok?
    ensures var (matched, unmatched) := FilterByColumnValue(rows, column, value).value;
      && |matched| + |unmatched| == |rows|
      && multiset(matched) + multiset(unmatched) == multiset(rows)
  {
    var (matched, unmatched) := FilterByColumnValue(rows, column, value).value;
    InterleavesSplits(rows, matched, unmatched);
  }

  /** The plain exact filter returns exactly the matched half of the
      complement variant. */
  lemma {:induction false} ExactFiltersAgree(rows: seq<Record>, column: string, value: string)
    ensures FilterByColumn(rows, column, value).Ok? == FilterByColumnValue(rows, column, value).Ok?
    ensures FilterByColumn(rows, column, value).Ok? ==>
      FilterByColumn(rows, column, value).value == FilterByColumnValue(rows, column, value).value.0
  {
    if rows != [] && column in rows[0] {
      SelectSame(rows, r => ExactMatch(r, column, value), r => ExactMatch(r, column, value));
    }
  }

  /** A row that lacks the field is never matched and always lands in the
      complement, even when the value searched for is empty. */
  lemma MissingFieldNeverMatches(rows: seq<Record>, column: string, value: string, r: Record)
    requires r in rows && column !in r
    requires FilterByColumnValue(rows, column, value).Ok?
    ensures r !in FilterByColumnValue(rows, column, value).value.0
    ensures r in FilterByColumnValue(rows, column, value).value.1
    ensures r !in FilterByColumn(rows, column, value).value
  {
    var (matched, unmatched) := FilterByColumnValue(rows, column, value).value;
    InterleavesSplits(rows, matched, unmatched);
    assert r in multiset(rows);
  }

  // ---------------------------------------------------------------------
  // Prefix match

  /** The value as the prefix filter compares it: stripped first when
      `trim` is set, then lower-cased when the match is case-insensitive. */
  function Normalized(v: string, caseSensitive: bool, trim: bool): string
  {
    var t := if trim then Strip(v) else v;
    if caseSensitive then t else Lower(t)
  }

  predicate PrefixMatches(v: string, prefix: string, caseSensitive: bool, trim: bool)
  {
    StartsWith(Normalized(v, caseSensitive, trim), if caseSensitive then prefix else Lower(prefix))
  }

  /** Rows whose `column` value (empty when absent) starts with `prefix`. */
  function FilterByPrefix(rows: seq<Record>, column: string, prefix: string, caseSensitive: bool, trim: bool)
    : (res: Result<seq<Record>>)
    ensures rows == [] ==> res == Ok([])
    ensures rows != [] && column !in rows[0] ==> res == Err(ColumnNotFound(column, Input))
    ensures res.Ok? <==> rows == [] || column in rows[0]
    ensures res.Ok? ==> forall r :: r in res.value <==>
      r in rows && PrefixMatches(Get(r, column), prefix, caseSensitive, trim)
    ensures res.Ok? ==>
      Interleaves(rows, res.value, Select(rows, r => !PrefixMatches(Get(r, column), prefix, caseSensitive, trim)))
  {
    if rows == [] then Ok([])
    else if column !in rows[0] then Err(ColumnNotFound(column, Input))
    else
      var isMatch := r => PrefixMatches(Get(r, column), prefix, caseSensitive, trim);
      var isOther := r => !PrefixMatches(Get(r, column), prefix, caseSensitive, trim);
      SelectPartition(rows, isMatch, isOther);
      Ok(Select(rows, isMatch))
  }

  /** Case-sensitive without trimming is plain `startswith`. */
  lemma PrefixPlain(v: string, prefix: string)
    ensures PrefixMatches(v, prefix, true, false) <==> |prefix| <= |v| && v[..|prefix|] == prefix
  {
  }

  /** With trimming on, leading and trailing whitespace of the value is
      ignored, whatever the case setting. */
  lemma {:induction false} PrefixIgnoresPadding(v: string, prefix: string, caseSensitive: bool, c: char)
    requires IsSpace(c)
    ensures PrefixMatches([c] + v, prefix, caseSensitive, true) == PrefixMatches(v, prefix, caseSensitive, true)
    ensures PrefixMatches(v + [c], prefix, caseSensitive, true) == PrefixMatches(v, prefix, caseSensitive, true)
  {
    assert ([c] + v)[1..] == v;
    assert TrimLeft([c] + v) == TrimLeft(v);
    TrimRightAfterSpace(v, c);
  }

  lemma {:induction false} TrimLeftAppendSpace(v: string, c: char)
    requires IsSpace(c)
    ensures TrimLeft(v + [c]) == if TrimLeft(v) == [] then [] else TrimLeft(v) + [c]
    decreases |v|
  {
    if v != [] && IsSpace(v[0]) {
      assert (v + [c])[1..] == v[1..] + [c];
      TrimLeftAppendSpace(v[1..], c);
    }
  }

  lemma TrimRightAfterSpace(v: string, c: char)
    requires IsSpace(c)
    ensures TrimRight(TrimLeft(v + [c])) == TrimRight(TrimLeft(v))
  {
    TrimLeftAppendSpace(v, c);
    var t := TrimLeft(v);
    if t != [] {
      assert (t + [c])[..|t|] == t;
    }
  }

  /** A case-sensitive match is also a case-insensitive one. */
  lemma PrefixCaseSensitiveImpliesInsensitive(v: string, prefix: string, trim: bool)
    ensures PrefixMatches(v, prefix, true, trim) ==> PrefixMatches(v, prefix, false, trim)
  {
    var t := if trim then Strip(v) else v;
    if PrefixMatches(v, prefix, true, trim) {
      LowerSlice(t, 0, |prefix|);
    }
  }

  /** Case-insensitive matching ignores the case of both the value and the
      prefix. */
  lemma PrefixCaseInsensitiveIgnoresCase(v: string, prefix: string, trim: bool)
    ensures PrefixMatches(v, prefix, false, trim) == PrefixMatches(Lower(v), Lower(prefix), false, trim)
  {
    LowerIdempotent(prefix);
    if trim {
      StripLowerCommute(v);
      LowerIdempotent(Strip(v));
    } else {
      LowerIdempotent(v);
    }
  }

  /** A missing field reads as the empty value, which only the empty
      prefix matches. */
  lemma PrefixOfMissingValue(prefix: string, caseSensitive: bool, trim: bool)
    ensures PrefixMatches("", prefix, caseSensitive, trim) <==> prefix == ""
  {
    assert Strip("") == "";
  }

  /** "abcdef" and "ABCxyz" both start with "AB" when case is ignored. */
  lemma PrefixExample()
    ensures PrefixMatches("abcdef", "AB", false, true)
    ensures PrefixMatches("ABCxyz", "AB", false, true)
    ensures !PrefixMatches("abcdef", "AB", true, true)
  {
    assert Lower("AB") == "ab";
    NoSpaceStrip("abcdef");
    NoSpaceStrip("ABCxyz");
    assert Lower("abcdef")[..2] == "ab";
    assert Lower("ABCxyz")[..2] == "ab";
  }

  lemma NoSpaceStrip(s: string)
    requires forall i :: 0 <= i < |s| ==> !IsSpace(s[i])
    ensures Strip(s) == s
  {
  }

  // ---------------------------------------------------------------------
  // Token match: the pattern \b(cuba\w*)\b, ignoring case

  /** Position `i` of `s` lies on a `\b` word boundary. */
  predicate IsBoundary(s: string, i: int)
    requires 0 <= i <= |s|
  {
    (0 < i && IsWordChar(s[i - 1])) != (i < |s| && IsWordChar(s[i]))
  }

  /** `s[i..j]` is a match of `\b(cuba\w*)\b` under case-insensitivity. */
  predicate RegexMatchAt(s: string, i: int, j: int)
  {
    && 0 <= i && i + 4 <= j <= |s|
    && IsBoundary(s, i)
    && Lower(s[i..i + 4]) == "cuba"
    && (forall m :: i + 4 <= m < j ==> IsWordChar(s[m]))
    && IsBoundary(s, j)
  }

  /** `pattern.search(s) is not None`. */
  ghost predicate RegexFinds(s: string)
  {
    exists i, j :: RegexMatchAt(s, i, j)
  }

  /** "cuba", in any case, starts at `i` and is not glued to a word
      character on its left. */
  predicate TokenAt(s: string, i: int)
    requires 0 <= i && i + 4 <= |s|
  {
    Lower(s[i..i + 4]) == "cuba" && (i == 0 || !IsWordChar(s[i - 1]))
  }

  /** Some token starts at or after `i`. */
  predicate ScanFrom(s: string, i: nat)
    decreases |s| - i
  {
    i + 4 <= |s| && (TokenAt(s, i) || ScanFrom(s, i + 1))
  }

  /** The value test of the token filter: an empty value never matches. */
  predicate MatchesCuba(v: string)
  {
    v != "" && ScanFrom(v, 0)
  }

  /** Rows whose `column` value (empty when absent) holds a token
      starting with "cuba". */
  function FilterCuba(rows: seq<Record>, column: string): (res: Result<seq<Record>>)
    ensures rows == [] ==> res == Ok([])
    ensures rows != [] && column !in rows[0] ==> res == Err(ColumnNotFound(column, Input))
    ensures res.Ok? <==> rows == [] || column in rows[0]
    ensures res.Ok? ==> forall r :: r in res.value <==> r in rows && MatchesCuba(Get(r, column))
    ensures res.Ok? ==> Interleaves(rows, res.value, Select(rows, r => !MatchesCuba(Get(r, column))))
  {
    if rows == [] then Ok([])
    else if column !in rows[0] then Err(ColumnNotFound(column, Input))
    else
      var isMatch := r => MatchesCuba(Get(r, column));
      var isOther := r => !MatchesCuba(Get(r, column));
      SelectPartition(rows, isMatch, isOther);
      Ok(Select(rows, isMatch))
  }

  /** The end of the run of word characters that starts at `m`. */
  function WordRunEnd(s: string, m: nat): (e: nat)
    requires m <= |s|
    ensures m <= e <= |s|
    ensures forall x :: m <= x < e ==> IsWordChar(s[x])
    ensures e == |s| || !IsWordChar(s[e])
    decreases |s| - m
  {
    if m < |s| && IsWordChar(s[m]) then WordRunEnd(s, m + 1) else m
  }

  lemma {:induction false} ScanFromFinds(s: string, start: nat, i: nat)
    requires start <= i && i + 4 <= |s| && TokenAt(s, i)
    ensures ScanFrom(s, start)
    decreases i - start
  {
    if start < i {
      ScanFromFinds(s, start + 1, i);
    }
  }

  lemma {:induction false} ScanFromWitness(s: string, start: nat) returns (i: nat)
    requires ScanFrom(s, start)
    ensures start <= i && i + 4 <= |s| && TokenAt(s, i)
    decreases |s| - start
  {
    if TokenAt(s, start) {
      i := start;
    } else {
      i := ScanFromWitness(s, start + 1);
    }
  }

  /** The scan agrees with the regular expression: the greedy `\w*` always
      reaches a trailing boundary, so only the left boundary matters. */
  lemma MatchesCubaIsRegexSearch(s: string)
    ensures MatchesCuba(s) <==> RegexFinds(s)
  {
    if MatchesCuba(s) {
      var i := ScanFromWitness(s, 0);
      var j := WordRunEnd(s, i + 4);
      assert Lower(s[i..i + 4])[0] == 'c' && Lower(s[i..i + 4])[3] == 'a';
      assert IsWordChar(s[i]) && IsWordChar(s[i + 3]);
      assert RegexMatchAt(s, i, j);
    }
    if RegexFinds(s) {
      var i, j :| RegexMatchAt(s, i, j);
      assert Lower(s[i..i + 4])[0] == 'c';
      assert IsWordChar(s[i]);
      assert TokenAt(s, i);
      ScanFromFinds(s, 0, i);
    }
  }

  /** The examples: "Cuba", "Cuban Sandwich" and "Cubalibre!" match;
      "Aruba", "xcuba" and the empty value do not. */
  lemma CubaExamples()
    ensures MatchesCuba("Cuba")
    ensures MatchesCuba("Cuban Sandwich")
    ensures MatchesCuba("Cubalibre!")
    ensures !MatchesCuba("Aruba")
    ensures !MatchesCuba("xcuba")
    ensures !MatchesCuba("")
  {
    assert Lower("Cuba") == "cuba";
    assert TokenAt("Cuba", 0);
    assert TokenAt("Cuban Sandwich", 0);
    assert TokenAt("Cubalibre!", 0);
    assert Lower("Arub")[0] == 'a';
    assert Lower("ruba")[0] == 'r';
    assert !ScanFrom("Aruba", 1);
    assert Lower("xcub")[0] == 'x';
    assert !ScanFrom("xcuba", 1);
  }
}
