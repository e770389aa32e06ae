/** The order in which `sorted` arranges composite keys: tuples compare
    lexicographically element by element, and strings compare
    lexicographically by code point; in both a proper prefix comes first. */
module KeyOrder {
  import opened Records

  /** Lexicographic order on sequences, given a strict order on elements. */
  predicate LexLess<T(==)>(a: seq<T>, b: seq<T>, less: (T, T) -> bool)
    decreases |a|
  {
    if |a| == 0 then |b| != 0
    else |b| != 0 && (less(a[0], b[0]) || (a[0] == b[0] && LexLess(a[1..], b[1..], less)))
  }

  ghost predicate StrictTotalOrder<T(!new)>(less: (T, T) -> bool)
  {
    && (forall x :: !less(x, x))
    && (forall x, y, z :: less(x, y) && less(y, z) ==> less(x, z))
    && (forall x, y :: x != y ==> less(x, y) || less(y, x))
  }

  lemma {:induction false} LexIrreflexive<T(!new)>(a: seq<T>, less: (T, T) -> bool)
    requires StrictTotalOrder(less)
    ensures !LexLess(a, a, less)
    decreases |a|
  {
    if |a| != 0 {
      LexIrreflexive(a[1..], less);
    }
  }

  lemma {:induction false} LexTransitive<T(!new)>(a: seq<T>, b: seq<T>, c: seq<T>, less: (T, T) -> bool)
    requires StrictTotalOrder(less)
    requires LexLess(a, b, less) && LexLess(b, c, less)
    ensures LexLess(a, c, less)
    decreases |a|
  {
    if |a| != 0 && a[0] == b[0] && b[0] == c[0] {
      LexTransitive(a[1..], b[1..], c[1..], less);
    }
  }

  lemma {:induction false} LexTotal<T(!new)>(a: seq<T>, b: seq<T>, less: (T, T) -> bool)
    requires StrictTotalOrder(less)
    requires a != b
    ensures LexLess(a, b, less) || LexLess(b, a, less)
    decreases |a|
  {
    if |a| != 0 && |b| != 0 && a[0] == b[0] {
      assert a == [a[0]] + a[1..] && b == [b[0]] + b[1..];
      LexTotal(a[1..], b[1..], less);
    }
  }

  predicate CharLess(x: char, y: char)
  {
    x < y
  }

  /** Python's `<` on `str`. */
  predicate StringLess(a: string, b: string)
  {
    LexLess(a, b, CharLess)
  }

  /** Python's `<` on tuples of `str`. */
  predicate KeyLess(a: Key, b: Key)
  {
    LexLess(a, b, StringLess)
  }

  lemma StringLessIsStrictTotalOrder()
    ensures StrictTotalOrder(StringLess)
  {
    assert StrictTotalOrder(CharLess);
    forall x: string
      ensures !StringLess(x, x)
    {
      LexIrreflexive(x, CharLess);
    }
    forall x: string, y: string, z: string | StringLess(x, y) && StringLess(y, z)
      ensures StringLess(x, z)
    {
      LexTransitive(x, y, z, CharLess);
    }
    forall x: string, y: string | x != y
      ensures StringLess(x, y) || StringLess(y, x)
    {
      LexTotal(x, y, CharLess);
    }
  }

  lemma KeyLessIrreflexive(a: Key)
    ensures !KeyLess(a, a)
  {
    StringLessIsStrictTotalOrder();
    LexIrreflexive(a, StringLess);
  }

  lemma KeyLessTransitive(a: Key, b: Key, c: Key)
    requires KeyLess(a, b) && KeyLess(b, c)
    ensures KeyLess(a, c)
  {
    StringLessIsStrictTotalOrder();
    LexTransitive(a, b, c, StringLess);
  }

  lemma KeyLessTotal(a: Key, b: Key)
    requires a != b
    ensures KeyLess(a, b) || KeyLess(b, a)
  {
    StringLessIsStrictTotalOrder();
    LexTotal(a, b, StringLess);
  }

  /** Keys in strictly ascending order (so also without repetition). */
  predicate Sorted(ks: seq<Key>)
  {
    forall i, j :: 0 <= i < j < |ks| ==> KeyLess(ks[i], ks[j])
  }

  ghost predicate IsLeast(m: Key, s: set<Key>)
  {
    m in s && forall k :: k in s && k != m ==> KeyLess(m, k)
  }

  lemma {:induction false} LeastExists(s: set<Key>)
    requires s != {}
    ensures exists m :: IsLeast(m, s)
    decreases s
  {
    var x :| x in s;
    if s != {x} {
      LeastExists(s - {x});
      var m :| IsLeast(m, s - {x});
      KeyLessTotal(m, x);
      if KeyLess(x, m) {
        forall k | k in s && k != x
          ensures KeyLess(x, k)
        {
          if k != m {
            KeyLessTransitive(x, m, k);
          }
        }
        assert IsLeast(x, s);
      } else {
        assert IsLeast(m, s);
      }
    } else {
      assert IsLeast(x, s);
    }
  }

  /** `sorted(s)`: the elements of `s` in ascending order. */
  ghost function SortedKeys(s: set<Key>): (r: seq<Key>)
    ensures Sorted(r)
    ensures |r| == |s|
    ensures forall k :: k in r <==> k in s
    decreases s
  {
    if s == {} then []
    else
      LeastExists(s);
      var m :| IsLeast(m, s);
      [m] + SortedKeys(s - {m})
  }

  /** There is only one ascending arrangement of a set of keys. */
  lemma {:induction false} SortedUnique(a: seq<Key>, b: seq<Key>)
    requires Sorted(a) && Sorted(b)
    requires |a| == |b|
    requires forall k :: k in a <==> k in b
    ensures a == b
    decreases |a|
  {
    if |a| != 0 {
      if a[0] != b[0] {
        assert a[0] in a && b[0] in b;
        var j :| 0 <= j < |b| && b[j] == a[0];
        assert b[0] in a;
        var i :| 0 <= i < |a| && a[i] == b[0];
        KeyLessTransitive(a[0], b[0], a[0]);
        KeyLessIrreflexive(a[0]);
      }
      forall k
        ensures k in a[1..] <==> k in b[1..]
      {
        if k in a[1..] {
          var i :| 1 <= i < |a| && a[i] == k;
          if k == a[0] {
            KeyLessIrreflexive(k);
          }
          assert k in b;
          var j :| 0 <= j < |b| && b[j] == k;
          assert j != 0;
          assert b[1..][j - 1] == k;
        }
        if k in b[1..] {
          var j :| 1 <= j < |b| && b[j] == k;
          if k == b[0] {
            KeyLessIrreflexive(k);
          }
          assert k in a;
          var i :| 0 <= i < |a| && a[i] == k;
          assert i != 0;
          assert a[1..][i - 1] == k;
        }
      }
      SortedUnique(a[1..], b[1..]);
    }
  }

  /** The least key of a non-empty set, found by one pass over it. */
  method LeastKey(s: set<Key>) returns (m: Key)
    requires s != {}
    ensures m in s
    ensures forall k :: k in s && k != m ==> KeyLess(m, k)
  {
    m :| m in s;
    var rest := s - {m};
    while rest != {}
      invariant rest <= s && m in s && m !in rest
      invariant forall k :: k in s && k !in rest && k != m ==> KeyLess(m, k)
      decreases rest
    {
      var k :| k in rest;
      if KeyLess(k, m) {
        forall j | j in s && j !in rest && j != m
          ensures KeyLess(k, j)
        {
          KeyLessTransitive(k, m, j);
        }
        m := k;
      } else {
        KeyLessTotal(k, m);
      }
      rest := rest - {k};
    }
  }

  /** `sorted(s)` computed by repeatedly taking the least remaining key. */
  method SortKeys(s: set<Key>) returns (r: seq<Key>)
    ensures r == SortedKeys(s)
  {
    r := [];
    var rest := s;
    while rest != {}
      invariant rest <= s
      invariant |r| + |rest| == |s|
      invariant Sorted(r)
      invariant forall k :: k in r <==> k in s && k !in rest
      invariant forall i, k :: 0 <= i < |r| && k in rest ==> KeyLess(r[i], k)
      decreases rest
    {
      var m := LeastKey(rest);
      r := r + [m];
      rest := rest - {m};
    }
    SortedUnique(r, SortedKeys(s));
  }
}
