/**
  The query operators the listing handlers chain on a table: `Where`,
  `OrderBy`, `Count`, `Skip` and `Take`, over an in-memory sequence of rows.

  `OrderBy` is given as an insertion sort under a comparison `le` ("sorts no
  later than"). Its promises hold whenever `le` is a total preorder; which of
  two rows with equal keys comes first is not part of any promise.
*/
module Query {

  /** `q.Where(p)`: the rows satisfying `p`, each as often as in `s`, in their order. */
  function Where<T(!new)>(s: seq<T>, p: T -> bool): (r: seq<T>)
    ensures |r| <= |s|
    ensures forall x :: x in r <==> x in s && p(x)
  {
    if s == [] then []
    else
      assert s == [s[0]] + s[1..];
      (if p(s[0]) then [s[0]] else []) + Where(s[1..], p)
  }

  /** `Where` keeps every matching row as many times as it occurs, and no other row. */
  lemma {:induction false} WhereCounts<T(!new)>(s: seq<T>, p: T -> bool, x: T)
    ensures multiset(Where(s, p))[x] == if p(x) then multiset(s)[x] else 0
  {
    if s != [] {
      WhereCounts(s[1..], p, x);
      assert s == [s[0]] + s[1..];
    }
  }

  /** Two `Where` steps with predicates that agree on every row select the same rows. */
  lemma {:induction false} WhereExtensional<T(!new)>(s: seq<T>, p: T -> bool, q: T -> bool)
    requires forall x :: p(x) == q(x)
    ensures Where(s, p) == Where(s, q)
  {
    if s != [] {
      WhereExtensional(s[1..], p, q);
    }
  }

  /** Chained `Where` calls compose by AND: filtering by `p` and then by `q` selects
      what filtering once by their conjunction `pq` does. */
  lemma {:induction false} WhereWhere<T(!new)>(s: seq<T>, p: T -> bool, q: T -> bool, pq: T -> bool)
    requires forall x :: pq(x) == (p(x) && q(x))
    ensures Where(Where(s, p), q) == Where(s, pq)
  {
    if s != [] {
      var rest := Where(s[1..], p);
      WhereWhere(s[1..], p, q, pq);
      var t := Where(s, p);
      if p(s[0]) {
        assert t == [s[0]] + rest;
        assert t[1..] == rest;
      } else {
        assert t == rest;
      }
    }
  }

  /** A `Where` whose predicate holds for every row keeps the sequence as it is. */
  lemma {:induction false} WhereAll<T(!new)>(s: seq<T>, p: T -> bool)
    requires forall x :: p(x)
    ensures Where(s, p) == s
  {
    if s != [] {
      WhereAll(s[1..], p);
      assert s == [s[0]] + s[1..];
    }
  }

  /** Every earlier element sorts no later than every later one. */
  ghost predicate SortedBy<T>(le: (T, T) -> bool, s: seq<T>)
  {
    forall i, j :: 0 <= i < j < |s| ==> le(s[i], s[j])
  }

  /** `le` orders every pair of values and is transitive. */
  ghost predicate TotalPreorder<T(!new)>(le: (T, T) -> bool)
  {
    && (forall a, b :: le(a, b) || le(b, a))
    && (forall a, b, c :: le(a, b) && le(b, c) ==> le(a, c))
  }

  /** Inserts `x` before the first element it sorts no later than. */
  function Insert<T>(x: T, s: seq<T>, le: (T, T) -> bool): (r: seq<T>)
    ensures multiset(r) == multiset(s) + multiset{x}
  {
    if s == [] then [x]
    else if le(x, s[0]) then [x] + s
    else
      assert s == [s[0]] + s[1..];
      [s[0]] + Insert(x, s[1..], le)
  }

  /** `q.OrderBy(key)`: a rearrangement of `s` sorted under `le`. */
  function OrderBy<T>(s: seq<T>, le: (T, T) -> bool): (r: seq<T>)
    ensures multiset(r) == multiset(s)
  {
    if s == [] then []
    else
      assert s == [s[0]] + s[1..];
      Insert(s[0], OrderBy(s[1..], le), le)
  }

  /** A sorted sequence stays sorted when an element that sorts no later than all of
      it is put in front. */
  lemma ConsSorted<T>(le: (T, T) -> bool, a: T, t: seq<T>)
    requires SortedBy(le, t)
    requires forall k :: 0 <= k < |t| ==> le(a, t[k])
    ensures SortedBy(le, [a] + t)
  {
    var r := [a] + t;
    forall i, j | 0 <= i < j < |r| ensures le(r[i], r[j]) {
      assert r[j] == t[j - 1];
      if i > 0 {
        assert r[i] == t[i - 1];
      }
    }
  }

  lemma {:induction false} InsertSorted<T(!new)>(x: T, s: seq<T>, le: (T, T) -> bool)
    requires TotalPreorder(le) && SortedBy(le, s)
    ensures SortedBy(le, Insert(x, s, le))
    decreases |s|
  {
    if s == [] {
    } else if le(x, s[0]) {
      forall k | 0 <= k < |s| ensures le(x, s[k]) {
        if k > 0 {
          assert le(s[0], s[k]);
        }
      }
      ConsSorted(le, x, s);
      assert Insert(x, s, le) == [x] + s;
    } else {
      var t := Insert(x, s[1..], le);
      InsertSorted(x, s[1..], le);
      assert le(s[0], x);
      forall k | 0 <= k < |t| ensures le(s[0], t[k]) {
        var y := t[k];
        assert y in multiset(t);
        if y != x {
          assert y in multiset(s[1..]);
          var m :| 0 <= m < |s[1..]| && s[1..][m] == y;
          assert s[m + 1] == y;
        }
      }
      ConsSorted(le, s[0], t);
    }
  }

  /** The result of `OrderBy` is sorted and is a permutation of its input. */
  lemma {:induction false} OrderBySorted<T(!new)>(s: seq<T>, le: (T, T) -> bool)
    requires TotalPreorder(le)
    ensures SortedBy(le, OrderBy(s, le))
    ensures multiset(OrderBy(s, le)) == multiset(s)
    ensures |OrderBy(s, le)| == |s|
  {
    if s != [] {
      OrderBySorted(s[1..], le);
      InsertSorted(s[0], OrderBy(s[1..], le), le);
    }
    assert |multiset(OrderBy(s, le))| == |multiset(s)|;
  }

  /** A contiguous slice of a sorted sequence is sorted. */
  lemma SliceSorted<T>(le: (T, T) -> bool, s: seq<T>, lo: int, hi: int)
    requires SortedBy(le, s) && 0 <= lo <= hi <= |s|
    ensures SortedBy(le, s[lo..hi])
  {
    forall i, j | 0 <= i < j < hi - lo ensures le(s[lo..hi][i], s[lo..hi][j]) {
      assert s[lo..hi][i] == s[lo + i] && s[lo..hi][j] == s[lo + j];
    }
  }

  /** `q.Skip(n)`: drops the first `n` rows; a negative `n` drops none, a large one all. */
  function Skip<T>(s: seq<T>, n: int): seq<T>
  {
    if n <= 0 then s else if n >= |s| then [] else s[n..]
  }

  /** `q.Take(n)`: keeps the first `n` rows; a negative `n` keeps none, a large one all. */
  function Take<T>(s: seq<T>, n: int): seq<T>
  {
    if n <= 0 then [] else if n >= |s| then s else s[..n]
  }

  /** `Take(n)` and `Skip(n)` split the rows in two, for every `n`: together they are
      the whole sequence, so a page never drops or repeats a row at its edges. */
  lemma TakeSkip<T>(s: seq<T>, n: int)
    ensures Take(s, n) + Skip(s, n) == s
  {
    if 0 < n < |s| {
      assert s[..n] + s[n..] == s;
    }
  }
}
