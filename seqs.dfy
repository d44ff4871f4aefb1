/**
 * The two things the storage engine does to result sets in this model:
 * keep the rows a `WHERE` clause accepts, and `ORDER BY` a text column,
 * ascending or descending.
 */
module Seqs {
  import opened Text

  /** The rows of s that `keep` accepts, in their order. */
  function Filter<T>(s: seq<T>, keep: T -> bool): (r: seq<T>)
    ensures |r| <= |s|
    ensures forall i | 0 <= i < |r| :: r[i] in s && keep(r[i])
    ensures forall i | 0 <= i < |s| && keep(s[i]) :: s[i] in r
  {
    if s == [] then []
    else
      assert s == [s[0]] + s[1..];
      (if keep(s[0]) then [s[0]] else []) + Filter(s[1..], keep)
  }

  /** Rows split by a test fall into exactly one of the two filters. */
  lemma {:induction false} FilterPartition<T>(s: seq<T>, keep: T -> bool, yes: T -> bool, no: T -> bool)
    requires forall x :: keep(x) <==> (yes(x) || no(x))
    requires forall x :: !(yes(x) && no(x))
    ensures |Filter(s, yes)| + |Filter(s, no)| == |Filter(s, keep)|
  {
    if s != [] {
      FilterPartition(s[1..], keep, yes, no);
    }
  }

  /** A filter that accepts at least what another does keeps at least as many rows. */
  lemma {:induction false} FilterMonotone<T>(s: seq<T>, small: T -> bool, large: T -> bool)
    requires forall x :: small(x) ==> large(x)
    ensures |Filter(s, small)| <= |Filter(s, large)|
  {
    if s != [] {
      FilterMonotone(s[1..], small, large);
    }
  }

  /** a may stand before b: its key is not larger (ascending) or not smaller (descending). */
  predicate Before<T>(a: T, b: T, key: T -> string, descending: bool)
  {
    if descending then LexLe(key(b), key(a)) else LexLe(key(a), key(b))
  }

  /** `ORDER BY key ASC` (or `DESC`) holds of s. */
  predicate Ordered<T>(s: seq<T>, key: T -> string, descending: bool)
  {
    forall i, j | 0 <= i < j < |s| :: Before(s[i], s[j], key, descending)
  }

  lemma BeforeTotal<T>(a: T, b: T, key: T -> string, descending: bool)
    ensures Before(a, b, key, descending) || Before(b, a, key, descending)
  {
    LexLeTotal(key(a), key(b));
  }

  lemma BeforeTransitive<T>(a: T, b: T, c: T, key: T -> string, descending: bool)
    requires Before(a, b, key, descending) && Before(b, c, key, descending)
    ensures Before(a, c, key, descending)
  {
    if descending {
      LexLeTransitive(key(c), key(b), key(a));
    } else {
      LexLeTransitive(key(a), key(b), key(c));
    }
  }

  function Insert<T>(x: T, s: seq<T>, key: T -> string, descending: bool): seq<T>
  {
    if s == [] || Before(x, s[0], key, descending) then [x] + s
    else [s[0]] + Insert(x, s[1..], key, descending)
  }

  lemma {:induction false} InsertMultiset<T>(x: T, s: seq<T>, key: T -> string, descending: bool)
    ensures multiset(Insert(x, s, key, descending)) == multiset(s) + multiset{x}
  {
    if s != [] && !Before(x, s[0], key, descending) {
      InsertMultiset(x, s[1..], key, descending);
      assert s == [s[0]] + s[1..];
    }
  }

  lemma {:induction false} InsertOrdered<T>(x: T, s: seq<T>, key: T -> string, descending: bool)
    requires Ordered(s, key, descending)
    ensures Ordered(Insert(x, s, key, descending), key, descending)
  {
    var r := Insert(x, s, key, descending);
    if s == [] {
    } else if Before(x, s[0], key, descending) {
      forall i, j | 0 <= i < j < |r| ensures Before(r[i], r[j], key, descending) {
        if i == 0 && j > 1 {
          BeforeTransitive(x, s[0], s[j - 1], key, descending);
        }
      }
    } else {
      BeforeTotal(x, s[0], key, descending);
      var t := Insert(x, s[1..], key, descending);
      InsertOrdered(x, s[1..], key, descending);
      InsertMultiset(x, s[1..], key, descending);
      assert r == [s[0]] + t;
      forall k | 0 <= k < |t| ensures Before(s[0], t[k], key, descending) {
        assert t[k] in multiset(t);
        assert t[k] == x || t[k] in multiset(s[1..]);
        if t[k] != x {
          var m :| 0 <= m < |s[1..]| && s[1..][m] == t[k];
          assert s[m + 1] == t[k];
        }
      }
    }
  }

  /**
   * The result set in `ORDER BY` order. SQL leaves the order of rows with
   * equal keys open; this picks the one insertion sort gives.
   */
  function SortBy<T>(s: seq<T>, key: T -> string, descending: bool): seq<T>
  {
    if s == [] then [] else Insert(s[0], SortBy(s[1..], key, descending), key, descending)
  }

  /** The sorted rows are ordered and are the same rows, as many times each. */
  lemma {:induction false} SortByCorrect<T>(s: seq<T>, key: T -> string, descending: bool)
    ensures Ordered(SortBy(s, key, descending), key, descending)
    ensures multiset(SortBy(s, key, descending)) == multiset(s)
  {
    if s != [] {
      SortByCorrect(s[1..], key, descending);
      InsertOrdered(s[0], SortBy(s[1..], key, descending), key, descending);
      InsertMultiset(s[0], SortBy(s[1..], key, descending), key, descending);
      assert s == [s[0]] + s[1..];
    }
  }

  /** Sorting neither adds nor drops a row. */
  lemma SortByMembers<T>(s: seq<T>, key: T -> string, descending: bool)
    ensures forall i | 0 <= i < |s| :: s[i] in SortBy(s, key, descending)
    ensures forall i | 0 <= i < |SortBy(s, key, descending)| :: SortBy(s, key, descending)[i] in s
    ensures |SortBy(s, key, descending)| == |s|
  {
    SortByCorrect(s, key, descending);
    var r := SortBy(s, key, descending);
    forall i | 0 <= i < |s| ensures s[i] in r {
      assert s[i] in multiset(s);
    }
    forall i | 0 <= i < |r| ensures r[i] in s {
      assert r[i] in multiset(r);
    }
    assert |multiset(r)| == |multiset(s)|;
  }

  /** The column list of a `SELECT`: each row of s read through f, in order. */
  function Project<T, U>(s: seq<T>, f: T -> U): (r: seq<U>)
    ensures |r| == |s|
    ensures forall i | 0 <= i < |s| :: r[i] == f(s[i])
  {
    if s == [] then [] else [f(s[0])] + Project(s[1..], f)
  }

  /** No two rows share a key. */
  predicate KeysUnique<T, K(==)>(s: seq<T>, key: T -> K)
  {
    forall i, j | 0 <= i < j < |s| :: key(s[i]) != key(s[j])
  }

  /** A filter keeps a unique key unique. */
  lemma {:induction false} FilterKeepsUnique<T, K>(s: seq<T>, keep: T -> bool, key: T -> K)
    requires KeysUnique(s, key)
    ensures KeysUnique(Filter(s, keep), key)
  {
    if s != [] {
      var tail := s[1..];
      assert KeysUnique(tail, key) by {
        forall i, j | 0 <= i < j < |tail| ensures key(tail[i]) != key(tail[j]) {
          assert tail[i] == s[i + 1] && tail[j] == s[j + 1];
        }
      }
      FilterKeepsUnique(tail, keep, key);
      var rest := Filter(tail, keep);
      if keep(s[0]) {
        var r := [s[0]] + rest;
        forall j | 0 < j < |r| ensures key(r[0]) != key(r[j]) {
          assert rest[j - 1] in tail;
          var m :| 0 <= m < |tail| && tail[m] == rest[j - 1];
          assert s[m + 1] == tail[m];
        }
        forall i, j | 0 <= i < j < |r| ensures key(r[i]) != key(r[j]) {
          if i > 0 {
            assert r[i] == rest[i - 1] && r[j] == rest[j - 1];
          }
        }
      }
    }
  }

  /** `SELECT … WHERE keep ORDER BY key`: sorted, and exactly the accepted rows. */
  lemma SelectSorted<T>(s: seq<T>, keep: T -> bool, key: T -> string, descending: bool)
    ensures Ordered(SortBy(Filter(s, keep), key, descending), key, descending)
    ensures |SortBy(Filter(s, keep), key, descending)| == |Filter(s, keep)|
    ensures forall i | 0 <= i < |s| && keep(s[i]) :: s[i] in SortBy(Filter(s, keep), key, descending)
    ensures forall i | 0 <= i < |SortBy(Filter(s, keep), key, descending)| ::
      SortBy(Filter(s, keep), key, descending)[i] in s && keep(SortBy(Filter(s, keep), key, descending)[i])
  {
    var f := Filter(s, keep);
    SortByCorrect(f, key, descending);
    SortByMembers(f, key, descending);
    var r := SortBy(f, key, descending);
    forall i | 0 <= i < |s| && keep(s[i]) ensures s[i] in r {
      var m :| 0 <= m < |f| && f[m] == s[i];
    }
    forall i | 0 <= i < |r| ensures r[i] in s && keep(r[i]) {
      var m :| 0 <= m < |f| && f[m] == r[i];
    }
  }

  /**
   * The columns of `SELECT … WHERE keep ORDER BY key`: one per accepted row,
   * and each the columns of an accepted row.
   */
  lemma SelectProject<T, U>(s: seq<T>, keep: T -> bool, key: T -> string, descending: bool, f: T -> U)
    ensures |Project(SortBy(Filter(s, keep), key, descending), f)| == |Filter(s, keep)|
    ensures forall k | 0 <= k < |s| && keep(s[k]) :: f(s[k]) in Project(SortBy(Filter(s, keep), key, descending), f)
    ensures forall i | 0 <= i < |Project(SortBy(Filter(s, keep), key, descending), f)| :: exists k | 0 <= k < |s| ::
      keep(s[k]) && Project(SortBy(Filter(s, keep), key, descending), f)[i] == f(s[k])
  {
    var sorted := SortBy(Filter(s, keep), key, descending);
    var rows := Project(sorted, f);
    SelectSorted(s, keep, key, descending);
    forall k | 0 <= k < |s| && keep(s[k]) ensures f(s[k]) in rows {
      var m :| 0 <= m < |sorted| && sorted[m] == s[k];
      assert rows[m] == f(s[k]);
    }
    forall i | 0 <= i < |rows| ensures exists k | 0 <= k < |s| :: keep(s[k]) && rows[i] == f(s[k]) {
      var k :| 0 <= k < |s| && s[k] == sorted[i];
      assert keep(s[k]) && rows[i] == f(s[k]);
    }
  }
}
