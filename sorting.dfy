/**
 * Row filtering and ordering, the parts of the hosted database's query language the
 * blog queries use (`.eq`, `.order`, `.limit`), and the string order of `Array.prototype.sort`.
 */
module Sorting {

  /** The rows of `s` that satisfy `keep`, in their original order. */
  function Filter<T(!new)>(s: seq<T>, keep: T -> bool): (r: seq<T>)
    ensures |r| <= |s|
    ensures forall x :: x in r <==> x in s && keep(x)
    ensures multiset(r) <= multiset(s)
  {
    if s == [] then []
    else
      var rest := Filter(s[1..], keep);
      assert s == [s[0]] + s[1..];
      if keep(s[0]) then [s[0]] + rest else rest
  }

  /** `le` is a total preorder: any two rows are comparable, and the order chains. */
  ghost predicate TotalPreorder<T(!new)>(le: (T, T) -> bool) {
    && (forall a, b :: le(a, b) || le(b, a))
    && (forall a, b, c :: le(a, b) && le(b, c) ==> le(a, c))
  }

  /** Every row comes no later than the ones after it. */
  ghost predicate SortedBy<T>(s: seq<T>, le: (T, T) -> bool) {
    forall i, j :: 0 <= i < j < |s| ==> le(s[i], s[j])
  }

  function Insert<T>(x: T, s: seq<T>, le: (T, T) -> bool): seq<T> {
    if s == [] then [x]
    else if le(x, s[0]) then [x] + s
    else [s[0]] + Insert(x, s[1..], le)
  }

  /** Insertion sort, standing for the database's ORDER BY (ties in any order). */
  function Sort<T>(s: seq<T>, le: (T, T) -> bool): seq<T> {
    if s == [] then [] else Insert(s[0], Sort(s[1..], le), le)
  }

  lemma {:induction false} InsertPermutes<T>(x: T, s: seq<T>, le: (T, T) -> bool)
    ensures multiset(Insert(x, s, le)) == multiset(s) + multiset{x}
  {
    if s == [] {
      assert Insert(x, s, le) == [x];
    } else if le(x, s[0]) {
      assert Insert(x, s, le) == [x] + s;
    } else {
      var t := s[1..];
      InsertPermutes(x, t, le);
      assert Insert(x, s, le) == [s[0]] + Insert(x, t, le);
      assert s == [s[0]] + t;
    }
  }

  lemma InsertCorrect<T(!new)>(x: T, s: seq<T>, le: (T, T) -> bool)
    requires TotalPreorder(le) && SortedBy(s, le)
    ensures multiset(Insert(x, s, le)) == multiset(s) + multiset{x}
    ensures SortedBy(Insert(x, s, le), le)
  {
    InsertPermutes(x, s, le);
    InsertSorted(x, s, le);
  }

  /** Inserting into a sorted sequence keeps it sorted. */
  lemma {:induction false} InsertSorted<T(!new)>(x: T, s: seq<T>, le: (T, T) -> bool)
    requires TotalPreorder(le) && SortedBy(s, le)
    ensures SortedBy(Insert(x, s, le), le)
  {
    if s == [] {
    } else if le(x, s[0]) {
      forall j | 0 <= j < |s| ensures le(x, s[j]) {
        if j > 0 {
          assert le(s[0], s[j]);
        }
      }
      ConsSorted(x, s, le);
    } else {
      var t := s[1..];
      InsertSorted(x, t, le);
      assert le(s[0], x);
      forall j | 0 <= j < |t| ensures le(s[0], t[j]) {
        assert t[j] == s[j + 1];
      }
      BoundOverInsert(s[0], x, t, le);
      ConsSorted(s[0], Insert(x, t, le), le);
    }
  }

  /** A row that comes no later than any row of a sorted sequence can go in front of it. */
  lemma ConsSorted<T>(b: T, r: seq<T>, le: (T, T) -> bool)
    requires SortedBy(r, le) && forall i :: 0 <= i < |r| ==> le(b, r[i])
    ensures SortedBy([b] + r, le)
  {
    var q := [b] + r;
    forall i, j | 0 <= i < j < |q| ensures le(q[i], q[j]) {
      assert q[j] == r[j - 1];
      if i > 0 {
        assert q[i] == r[i - 1];
      }
    }
  }

  /** A row that comes no later than `x` and than every row of `t` comes no later than any row of their insertion. */
  lemma BoundOverInsert<T>(b: T, x: T, t: seq<T>, le: (T, T) -> bool)
    requires le(b, x) && forall j :: 0 <= j < |t| ==> le(b, t[j])
    ensures forall i :: 0 <= i < |Insert(x, t, le)| ==> le(b, Insert(x, t, le)[i])
  {
    var r := Insert(x, t, le);
    InsertPermutes(x, t, le);
    forall i | 0 <= i < |r| ensures le(b, r[i]) {
      assert r[i] in multiset(r);
      if r[i] != x {
        assert r[i] in multiset(t);
        var j :| 0 <= j < |t| && t[j] == r[i];
      }
    }
  }

  /** Sorting keeps exactly the same rows, whatever the order. */
  lemma {:induction false} SortPermutes<T>(s: seq<T>, le: (T, T) -> bool)
    ensures multiset(Sort(s, le)) == multiset(s)
  {
    if s != [] {
      SortPermutes(s[1..], le);
      InsertPermutes(s[0], Sort(s[1..], le), le);
      assert s == [s[0]] + s[1..];
    }
  }

  /** Sorting orders the rows and keeps exactly the same rows. */
  lemma {:induction false} SortCorrect<T(!new)>(s: seq<T>, le: (T, T) -> bool)
    requires TotalPreorder(le)
    ensures multiset(Sort(s, le)) == multiset(s)
    ensures SortedBy(Sort(s, le), le)
  {
    if s != [] {
      SortCorrect(s[1..], le);
      InsertCorrect(s[0], Sort(s[1..], le), le);
      assert s == [s[0]] + s[1..];
    }
  }

  function Min(a: nat, b: nat): nat { if a <= b then a else b }

  /** `.order(...).limit(k)`: the first k rows of the ordered table. */
  function TopK<T>(s: seq<T>, le: (T, T) -> bool, k: nat): seq<T> {
    var r := Sort(s, le);
    r[..Min(k, |r|)]
  }

  /**
   * The first k rows of the order are the k greatest: they are rows of the table, in
   * order, as many as there are (up to k), and every row left out comes after every row kept.
   */
  lemma TopKCorrect<T(!new)>(s: seq<T>, le: (T, T) -> bool, k: nat)
    requires TotalPreorder(le)
    ensures |TopK(s, le, k)| == Min(k, |s|)
    ensures multiset(TopK(s, le, k)) <= multiset(s)
    ensures SortedBy(TopK(s, le, k), le)
    ensures forall x, y :: x in TopK(s, le, k) && y in multiset(s) - multiset(TopK(s, le, k)) ==> le(x, y)
  {
    var r := Sort(s, le);
    SortCorrect(s, le);
    assert |r| == |s| by { assert |multiset(r)| == |multiset(s)|; }
    SortedPrefix(r, le, Min(k, |r|));
  }

  /** A prefix of a sorted sequence is sorted, part of it, and comes before the rest. */
  lemma SortedPrefix<T>(r: seq<T>, le: (T, T) -> bool, n: nat)
    requires SortedBy(r, le) && n <= |r|
    ensures SortedBy(r[..n], le)
    ensures multiset(r[..n]) <= multiset(r) && multiset(r) - multiset(r[..n]) == multiset(r[n..])
    ensures forall x, y :: x in r[..n] && y in multiset(r[n..]) ==> le(x, y)
  {
    assert r == r[..n] + r[n..];
    forall x, y | x in r[..n] && y in multiset(r[n..]) ensures le(x, y) {
      var i :| 0 <= i < n && r[i] == x;
      var j :| 0 <= j < |r| - n && r[n..][j] == y;
      assert r[n + j] == y;
    }
  }

  /** `Array.prototype.sort`'s default order on strings: lexicographic by character. */
  predicate StrLe(a: string, b: string) {
    a == [] || (b != [] && (a[0] < b[0] || (a[0] == b[0] && StrLe(a[1..], b[1..]))))
  }

  lemma {:induction false} StrLeTotal(a: string, b: string)
    ensures StrLe(a, b) || StrLe(b, a)
  {
    if a != [] && b != [] && a[0] == b[0] {
      StrLeTotal(a[1..], b[1..]);
    }
  }

  lemma {:induction false} StrLeTransitive(a: string, b: string, c: string)
    requires StrLe(a, b) && StrLe(b, c)
    ensures StrLe(a, c)
  {
    if a != [] && a[0] == b[0] && b[0] == c[0] {
      StrLeTransitive(a[1..], b[1..], c[1..]);
    }
  }

  lemma {:induction false} StrLeAntisymmetric(a: string, b: string)
    requires StrLe(a, b) && StrLe(b, a)
    ensures a == b
  {
    if a != [] {
      StrLeAntisymmetric(a[1..], b[1..]);
      assert a == [a[0]] + a[1..] && b == [b[0]] + b[1..];
    }
  }

  lemma StrLeIsTotalPreorder()
    ensures TotalPreorder(StrLe)
  {
    forall a, b ensures StrLe(a, b) || StrLe(b, a) { StrLeTotal(a, b); }
    forall a, b, c | StrLe(a, b) && StrLe(b, c) ensures StrLe(a, c) { StrLeTransitive(a, b, c); }
  }
}
