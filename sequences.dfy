/**
 * Sequence operations the JavaScript code expresses with `filter`, `includes`,
 * `new Set(...)` and `find`, and the row-wise effect of an SQL
 * `UPDATE ... WHERE` or `DELETE ... WHERE` on a table held as a sequence.
 */
module Sequences {
  import opened Results

  /** No element occurs twice. */
  predicate Distinct<T(==,!new)>(s: seq<T>)
  {
    forall i, j :: 0 <= i < j < |s| ==> s[i] != s[j]
  }

  /** `Array.prototype.filter`: the elements satisfying `p`, in their order. */
  function Filter<T(!new)>(s: seq<T>, p: T -> bool): (r: seq<T>)
    ensures |r| <= |s|
    ensures forall x :: x in r <==> x in s && p(x)
  {
    if s == [] then [] else (if p(s[0]) then [s[0]] else []) + Filter(s[1..], p)
  }

  /** Filtering keeps every occurrence of a passing element and none of a failing one. */
  lemma {:induction false} FilterMultiset<T(!new)>(s: seq<T>, p: T -> bool, x: T)
    ensures multiset(Filter(s, p))[x] == if p(x) then multiset(s)[x] else 0
  {
    if s != [] {
      FilterMultiset(s[1..], p, x);
      assert s == [s[0]] + s[1..];
    }
  }

  /** Filtering distributes over concatenation, so it keeps relative order. */
  lemma {:induction false} FilterConcat<T(!new)>(s: seq<T>, t: seq<T>, p: T -> bool)
    ensures Filter(s + t, p) == Filter(s, p) + Filter(t, p)
  {
    if s == [] {
      assert s + t == t;
    } else {
      assert (s + t)[0] == s[0];
      assert (s + t)[1..] == s[1..] + t;
      FilterConcat(s[1..], t, p);
    }
  }

  /** A filter that every element passes changes nothing. */
  lemma {:induction false} FilterKeepsAll<T(!new)>(s: seq<T>, p: T -> bool)
    requires forall i :: 0 <= i < |s| ==> p(s[i])
    ensures Filter(s, p) == s
  {
    if s != [] {
      FilterKeepsAll(s[1..], p);
    }
  }

  /** The test `u => u !== x`. */
  function Unequal<T(==)>(x: T): T -> bool
  {
    u => u != x
  }

  /** `s.filter(u => u !== x)`: every occurrence of `x` removed. */
  function RemoveAll<T(==,!new)>(s: seq<T>, x: T): (r: seq<T>)
    ensures x !in r
    ensures forall y :: y in r <==> y in s && y != x
  {
    Filter(s, Unequal(x))
  }

  /** Removing a value that does not occur changes nothing. */
  lemma RemoveAllAbsent<T(!new)>(s: seq<T>, x: T)
    requires x !in s
    ensures RemoveAll(s, x) == s
  {
    FilterKeepsAll(s, Unequal(x));
  }

  /** Removing an element that was appended to a list not holding it restores the list. */
  lemma RemoveAllAppended<T(!new)>(s: seq<T>, x: T)
    requires x !in s
    ensures RemoveAll(s + [x], x) == s
  {
    FilterConcat(s, [x], Unequal(x));
    RemoveAllAbsent(s, x);
    assert Filter([x], Unequal(x)) == [];
  }

  /** The index of the first occurrence of `x` (`indexOf`, or what `find` stops at). */
  function FirstIndex<T(==,!new)>(s: seq<T>, x: T): (i: nat)
    requires x in s
    ensures i < |s| && s[i] == x
    ensures forall j :: 0 <= j < i ==> s[j] != x
  {
    if s[0] == x then 0 else 1 + FirstIndex(s[1..], x)
  }

  /** A first occurrence inside a prefix is the first occurrence in the whole sequence. */
  lemma FirstIndexPrefix<T(!new)>(s: seq<T>, n: nat, x: T)
    requires n <= |s| && x in s[..n]
    ensures FirstIndex(s, x) == FirstIndex(s[..n], x)
  {
    var i, k := FirstIndex(s, x), FirstIndex(s[..n], x);
    assert s[k] == x;
    assert i <= k;
    assert s[..n][i] == x;
  }

  /**
   * `[...new Set(s)]`: the distinct elements of `s`, each kept at the place of
   * its first occurrence.
   */
  function Dedup<T(==,!new)>(s: seq<T>): (r: seq<T>)
    ensures Distinct(r)
    ensures forall x :: x in r <==> x in s
    ensures |r| <= |s|
  {
    if s == [] then []
    else
      var d := Dedup(s[..|s| - 1]);
      assert s == s[..|s| - 1] + [s[|s| - 1]];
      if s[|s| - 1] in d then d else d + [s[|s| - 1]]
  }

  /** `Dedup` keeps first-occurrence order. */
  lemma {:induction false} DedupFirstOccurrenceOrder<T(!new)>(s: seq<T>)
    ensures forall a, b :: 0 <= a < b < |Dedup(s)| ==>
      FirstIndex(s, Dedup(s)[a]) < FirstIndex(s, Dedup(s)[b])
  {
    if s != [] {
      var n := |s| - 1;
      var d := Dedup(s[..n]);
      DedupFirstOccurrenceOrder(s[..n]);
      forall y | y in d
        ensures FirstIndex(s, y) == FirstIndex(s[..n], y) < n
      {
        FirstIndexPrefix(s, n, y);
      }
      if s[n] !in d {
        assert s[n] !in s[..n];
        assert FirstIndex(s, s[n]) == n;
        assert Dedup(s) == d + [s[n]];
      }
    }
  }

  /** A sequence without repetitions is its own de-duplication. */
  lemma {:induction false} DedupDistinct<T(!new)>(s: seq<T>)
    requires Distinct(s)
    ensures Dedup(s) == s
  {
    if s != [] {
      var n := |s| - 1;
      assert Distinct(s[..n]);
      DedupDistinct(s[..n]);
      assert s[n] !in s[..n];
      assert s == s[..n] + [s[n]];
    }
  }

  /** `UPDATE ... SET f WHERE p`: every row satisfying `p` rewritten by `f`, in place. */
  function UpdateWhere<T>(s: seq<T>, p: T -> bool, f: T -> T): (r: seq<T>)
    ensures |r| == |s|
    ensures forall i :: 0 <= i < |s| ==> r[i] == if p(s[i]) then f(s[i]) else s[i]
  {
    seq(|s|, i requires 0 <= i < |s| => if p(s[i]) then f(s[i]) else s[i])
  }

  /** The index of the first element satisfying `p` (the first row an SQL `SELECT` returns). */
  function FindFirst<T>(s: seq<T>, p: T -> bool): (i: Option<nat>)
    ensures i.Some? ==> i.value < |s| && p(s[i.value])
    ensures i.Some? ==> forall j :: 0 <= j < i.value ==> !p(s[j])
    ensures i.None? <==> forall j :: 0 <= j < |s| ==> !p(s[j])
  {
    if s == [] then None
    else if p(s[0]) then Some(0)
    else
      match FindFirst(s[1..], p)
      case None => None
      case Some(k) => Some(k + 1)
  }

  /** The test `x => !p(x)`. */
  function Negate<T>(p: T -> bool): T -> bool
  {
    x => !p(x)
  }

  /** `DELETE ... WHERE p`: the rows not satisfying `p`, in their order. */
  function DeleteWhere<T(!new)>(s: seq<T>, p: T -> bool): (r: seq<T>)
    ensures forall x :: x in r <==> x in s && !p(x)
  {
    Filter(s, Negate(p))
  }

  /** Some kept element passes `q` exactly when some element passing `p` passes `q`. */
  lemma FilterExists<T(!new)>(s: seq<T>, p: T -> bool, q: T -> bool)
    ensures (exists j :: 0 <= j < |Filter(s, p)| && q(Filter(s, p)[j])) <==> exists i :: 0 <= i < |s| && p(s[i]) && q(s[i])
  {
    var r := Filter(s, p);
    if exists j :: 0 <= j < |r| && q(r[j]) {
      var j :| 0 <= j < |r| && q(r[j]);
      assert r[j] in r;
      var i :| 0 <= i < |s| && s[i] == r[j];
      assert p(s[i]) && q(s[i]);
      assert exists i :: 0 <= i < |s| && p(s[i]) && q(s[i]);
    }
    if exists i :: 0 <= i < |s| && p(s[i]) && q(s[i]) {
      var i :| 0 <= i < |s| && p(s[i]) && q(s[i]);
      assert s[i] in s;
      assert s[i] in r;
      var j :| 0 <= j < |r| && r[j] == s[i];
      assert 0 <= j < |r| && q(r[j]);
      assert exists j :: 0 <= j < |Filter(s, p)| && q(Filter(s, p)[j]);
    }
  }

  /** Filters by tests that agree on every element give the same result. */
  lemma {:induction false} FilterAgree<T(!new)>(s: seq<T>, p: T -> bool, q: T -> bool)
    requires forall i :: 0 <= i < |s| ==> p(s[i]) == q(s[i])
    ensures Filter(s, p) == Filter(s, q)
  {
    if s != [] {
      FilterAgree(s[1..], p, q);
    }
  }

  /** An `UPDATE ... WHERE` that matches exactly row `k` rewrites that row alone. */
  lemma UpdateWhereSingle<T>(s: seq<T>, p: T -> bool, f: T -> T, k: nat)
    requires k < |s| && p(s[k])
    requires forall i :: 0 <= i < |s| && i != k ==> !p(s[i])
    ensures UpdateWhere(s, p, f) == s[k := f(s[k])]
  {
  }

  /** No two rows share a key (a primary key column). */
  ghost predicate UniqueKeys<T>(s: seq<T>, key: T -> int)
  {
    forall i, j :: 0 <= i < j < |s| ==> key(s[i]) != key(s[j])
  }

  /** Every key is below `bound` (the next auto-increment value). */
  ghost predicate KeysBelow<T(!new)>(s: seq<T>, key: T -> int, bound: int)
  {
    forall x :: x in s ==> key(x) < bound
  }

  /** Filtering (and so deleting) keeps keys unique. */
  lemma {:induction false} FilterUniqueKeys<T(!new)>(s: seq<T>, p: T -> bool, key: T -> int)
    requires UniqueKeys(s, key)
    ensures UniqueKeys(Filter(s, p), key)
  {
    if s != [] {
      var r := Filter(s[1..], p);
      FilterUniqueKeys(s[1..], p, key);
      forall q | 0 <= q < |r| ensures key(r[q]) != key(s[0]) {
        assert r[q] in r;
        var i :| 0 <= i < |s[1..]| && s[1..][i] == r[q];
        assert s[i + 1] == r[q];
      }
      if p(s[0]) {
        var t := [s[0]] + r;
        forall a, b | 0 <= a < b < |t| ensures key(t[a]) != key(t[b]) {
          if a > 0 {
            assert t[a] == r[a - 1] && t[b] == r[b - 1];
          } else {
            assert t[b] == r[b - 1];
          }
        }
      }
    }
  }

  /** A row appended with a key above all others keeps keys unique. */
  lemma AppendUniqueKeys<T(!new)>(s: seq<T>, x: T, key: T -> int, bound: int)
    requires UniqueKeys(s, key) && KeysBelow(s, key, bound) && key(x) >= bound
    ensures UniqueKeys(s + [x], key) && KeysBelow(s + [x], key, key(x) + 1)
  {
    var t := s + [x];
    forall i, j | 0 <= i < j < |t| ensures key(t[i]) != key(t[j]) {
      assert t[i] == s[i] && s[i] in s;
      if j < |s| {
        assert t[j] == s[j];
      }
    }
  }

  /** A table rewritten row by row without touching keys keeps its key invariants. */
  lemma KeysKept<T(!new)>(s: seq<T>, t: seq<T>, key: T -> int, bound: int)
    requires |s| == |t| && forall i :: 0 <= i < |s| ==> key(t[i]) == key(s[i])
    requires UniqueKeys(s, key) && KeysBelow(s, key, bound)
    ensures UniqueKeys(t, key) && KeysBelow(t, key, bound)
  {
    forall x | x in t ensures key(x) < bound {
      var i :| 0 <= i < |t| && t[i] == x;
      assert s[i] in s;
    }
  }
}
