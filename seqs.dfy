/** Sequence operations that stand for the SQL the repositories issue:
    `WHERE` (Filter), `ORDER BY created_at DESC` over rows kept in insertion
    order (NewestFirst) and `LIMIT ... OFFSET ...` (Page). */
module Seqs {

  function Min(a: int, b: int): int
  {
    if a <= b then a else b
  }

  /** R holds between every element of s and every later element. */
  ghost predicate Pairwise<T>(s: seq<T>, R: (T, T) -> bool)
  {
    forall i, j :: 0 <= i < j < |s| ==> R(s[i], s[j])
  }

  /** Every pair related by R is strictly ordered by key. */
  ghost predicate OrdersBy<T(!new)>(R: (T, T) -> bool, key: T -> int)
  {
    forall x, y :: R(x, y) ==> key(x) < key(y)
  }

  /** Keys strictly decrease along s: newest first, no element twice. */
  ghost predicate Descending<T>(s: seq<T>, key: T -> int)
  {
    forall i, j :: 0 <= i < j < |s| ==> key(s[i]) > key(s[j])
  }

  /** The elements of s that satisfy p, in their original order. */
  function Filter<T(!new)>(s: seq<T>, p: T -> bool): (r: seq<T>)
    ensures |r| <= |s|
    ensures forall x :: x in r <==> x in s && p(x)
  {
    if s == [] then []
    else Filter(s[..|s| - 1], p) + (if p(s[|s| - 1]) then [s[|s| - 1]] else [])
  }

  /** The elements of s that satisfy p, the last one of s first. */
  function NewestFirst<T(!new)>(s: seq<T>, p: T -> bool): (r: seq<T>)
    ensures |r| <= |s|
    ensures forall x :: x in r <==> x in s && p(x)
  {
    if s == [] then []
    else (if p(s[|s| - 1]) then [s[|s| - 1]] else []) + NewestFirst(s[..|s| - 1], p)
  }

  /** NewestFirst is Filter read backwards: position i holds the i-th
      selected element counted from the end of s. */
  lemma {:induction false} NewestFirstReversesFilter<T(!new)>(s: seq<T>, p: T -> bool)
    ensures |NewestFirst(s, p)| == |Filter(s, p)|
    ensures forall i :: 0 <= i < |Filter(s, p)| ==>
      NewestFirst(s, p)[i] == Filter(s, p)[|Filter(s, p)| - 1 - i]
  {
    if s != [] {
      var init, last := s[..|s| - 1], s[|s| - 1];
      NewestFirstReversesFilter(init, p);
      var f, n := Filter(init, p), NewestFirst(init, p);
      if p(last) {
        assert Filter(s, p) == f + [last];
        assert NewestFirst(s, p) == [last] + n;
        forall i | 0 <= i < |f| + 1
          ensures NewestFirst(s, p)[i] == Filter(s, p)[|f| - i]
        {
          if i > 0 {
            assert NewestFirst(s, p)[i] == n[i - 1];
          }
        }
      } else {
        assert Filter(s, p) == f;
        assert NewestFirst(s, p) == n;
      }
    }
  }

  /** The number of elements of s that satisfy p and whose key exceeds k:
      the rank of a row with key k among the rows selected by p, newest first. */
  function Newer<T>(s: seq<T>, p: T -> bool, key: T -> int, k: int): nat
  {
    if s == [] then 0
    else Newer(s[..|s| - 1], p, key, k) + (if p(s[|s| - 1]) && key(s[|s| - 1]) > k then 1 else 0)
  }

  /** `LIMIT limit OFFSET offset`: skip offset elements, keep at most limit. */
  function Page<T>(s: seq<T>, limit: nat, offset: nat): (r: seq<T>)
    ensures offset < |s| ==> |r| == Min(limit, |s| - offset)
    ensures offset >= |s| ==> r == []
    ensures forall i :: 0 <= i < |r| ==> r[i] == s[offset + i]
  {
    if offset >= |s| then [] else s[offset..offset + Min(limit, |s| - offset)]
  }

  lemma PairwisePrefix<T>(s: seq<T>, R: (T, T) -> bool, n: nat)
    requires Pairwise(s, R) && n <= |s|
    ensures Pairwise(s[..n], R)
  {
  }

  /** Dropping elements keeps every pairwise relation of the survivors. */
  lemma {:induction false} FilterPairwise<T(!new)>(s: seq<T>, p: T -> bool, R: (T, T) -> bool)
    requires Pairwise(s, R)
    ensures Pairwise(Filter(s, p), R)
  {
    if s != [] {
      var s', last := s[..|s| - 1], s[|s| - 1];
      PairwisePrefix(s, R, |s| - 1);
      FilterPairwise(s', p, R);
      var f' := Filter(s', p);
      forall i | 0 <= i < |f'| ensures R(f'[i], last) {
        assert f'[i] in s';
        var k :| 0 <= k < |s'| && s'[k] == f'[i];
        assert s[k] == f'[i];
      }
    }
  }

  /** Filtering with a predicate every element satisfies keeps the sequence. */
  lemma {:induction false} FilterKeepsAll<T(!new)>(s: seq<T>, p: T -> bool)
    requires forall x :: x in s ==> p(x)
    ensures Filter(s, p) == s
  {
    if s != [] {
      assert s[|s| - 1] in s;
      FilterKeepsAll(s[..|s| - 1], p);
      assert s == s[..|s| - 1] + [s[|s| - 1]];
    }
  }

  /** Rows kept in insertion order with increasing keys come out of
      NewestFirst with strictly decreasing keys. */
  lemma {:induction false} NewestFirstDescending<T(!new)>(s: seq<T>, p: T -> bool, key: T -> int, R: (T, T) -> bool)
    requires Pairwise(s, R) && OrdersBy(R, key)
    ensures Descending(NewestFirst(s, p), key)
  {
    if s != [] {
      var s', last := s[..|s| - 1], s[|s| - 1];
      PairwisePrefix(s, R, |s| - 1);
      NewestFirstDescending(s', p, key, R);
      var r, r' := NewestFirst(s, p), NewestFirst(s', p);
      assert Descending(r', key);
      forall j | 0 <= j < |r'| ensures key(r'[j]) < key(last) {
        assert r'[j] in s';
        var k :| 0 <= k < |s'| && s'[k] == r'[j];
        assert R(s[k], s[|s| - 1]);
      }
      if p(last) {
        assert r == [last] + r';
        forall i, j | 0 <= i < j < |r| ensures key(r[i]) > key(r[j]) {
          assert r[j] == r'[j - 1] && key(r'[j - 1]) < key(last);
          if i > 0 {
            assert r[i] == r'[i - 1] && key(r'[i - 1]) > key(r'[j - 1]);
          }
        }
      } else {
        assert r == r';
      }
    }
  }

  lemma {:induction false} NewerNone<T>(s: seq<T>, p: T -> bool, key: T -> int, k: int)
    requires forall x :: x in s ==> key(x) <= k
    ensures Newer(s, p, key, k) == 0
  {
    if s != [] {
      NewerNone(s[..|s| - 1], p, key, k);
    }
  }

  /** The element at position i of NewestFirst has exactly i selected
      elements with a larger key: its position is its rank. */
  lemma {:induction false} NewestFirstRank<T(!new)>(s: seq<T>, p: T -> bool, key: T -> int, R: (T, T) -> bool, i: nat)
    requires Pairwise(s, R) && OrdersBy(R, key)
    requires i < |NewestFirst(s, p)|
    ensures Newer(s, p, key, key(NewestFirst(s, p)[i])) == i
  {
    var s', last := s[..|s| - 1], s[|s| - 1];
    PairwisePrefix(s, R, |s| - 1);
    forall x | x in s' ensures key(x) < key(last) {
      var k :| 0 <= k < |s'| && s'[k] == x;
      assert R(s[k], s[|s| - 1]);
    }
    var r, r' := NewestFirst(s, p), NewestFirst(s', p);
    if p(last) {
      assert r == [last] + r';
      if i == 0 {
        NewerNone(s', p, key, key(last));
      } else {
        assert r[i] == r'[i - 1];
        NewestFirstRank(s', p, key, R, i - 1);
      }
    } else {
      assert r == r';
      NewestFirstRank(s', p, key, R, i);
    }
  }

  /** The page of the newest-first selection: strictly newest first, and an
      element is on it exactly when it is selected and its rank falls in
      [offset, offset + limit). */
  lemma Window<T(!new)>(s: seq<T>, p: T -> bool, key: T -> int, R: (T, T) -> bool, limit: nat, offset: nat)
    requires Pairwise(s, R) && OrdersBy(R, key)
    ensures var r := Page(NewestFirst(s, p), limit, offset);
      && |r| <= limit
      && Descending(r, key)
      && (forall x :: x in r <==> x in s && p(x) && offset <= Newer(s, p, key, key(x)) < offset + limit)
  {
    var f := NewestFirst(s, p);
    var r := Page(f, limit, offset);
    NewestFirstDescending(s, p, key, R);
    forall x ensures x in r <==> x in s && p(x) && offset <= Newer(s, p, key, key(x)) < offset + limit {
      if x in r {
        var i :| 0 <= i < |r| && r[i] == x;
        NewestFirstRank(s, p, key, R, offset + i);
      }
      if x in s && p(x) {
        var k :| 0 <= k < |f| && f[k] == x;
        NewestFirstRank(s, p, key, R, k);
        if offset <= k < offset + limit {
          assert r[k - offset] == x;
        }
      }
    }
  }
}
