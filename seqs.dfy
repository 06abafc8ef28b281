/** Sequence operations the relational store is built from: the filtered queryset,
    the create-unless-present insert, the filter-then-delete, the ORDER BY
    descending, and the duplication an inner join produces. */
module Seqs {

  /** No element occurs twice: the shape of a table under `unique_together`. */
  predicate NoDup<T(==)>(s: seq<T>) {
    forall i, j :: 0 <= i < j < |s| ==> s[i] != s[j]
  }

  /** Without duplicates, the tail has none either and does not hold the head. */
  lemma NoDupTail<T>(s: seq<T>)
    requires NoDup(s) && s != []
    ensures NoDup(s[1..]) && s[0] !in s[1..]
  {
    forall i, j | 0 <= i < j < |s[1..]| ensures s[1..][i] != s[1..][j] {
      assert s[1..][i] == s[i + 1] && s[1..][j] == s[j + 1];
    }
    forall k | 0 <= k < |s[1..]| ensures s[1..][k] != s[0] {
      assert s[1..][k] == s[k + 1];
    }
  }

  /** The rows of `s` that `keep` accepts, in their original order. */
  function Filter<T(==,!new)>(s: seq<T>, keep: T -> bool): (r: seq<T>)
    ensures |r| <= |s|
    ensures forall x :: x in r <==> x in s && keep(x)
    ensures forall x :: multiset(r)[x] == if keep(x) then multiset(s)[x] else 0
  {
    if s == [] then []
    else
      assert s == [s[0]] + s[1..];
      if keep(s[0]) then [s[0]] + Filter(s[1..], keep) else Filter(s[1..], keep)
  }

  lemma {:induction false} FilterAppend<T(!new)>(a: seq<T>, b: seq<T>, keep: T -> bool)
    ensures Filter(a + b, keep) == Filter(a, keep) + Filter(b, keep)
  {
    if a == [] {
      assert a + b == b;
    } else {
      assert (a + b)[1..] == a[1..] + b;
      FilterAppend(a[1..], b, keep);
    }
  }

  /** Every row is either kept or dropped by a filter. */
  lemma {:induction false} FilterSplit<T(!new)>(s: seq<T>, keep: T -> bool, drop: T -> bool)
    requires forall x :: drop(x) <==> !keep(x)
    ensures |Filter(s, keep)| + |Filter(s, drop)| == |s|
  {
    if s != [] {
      FilterSplit(s[1..], keep, drop);
    }
  }

  /** Filtering a duplicate-free table leaves it duplicate-free. */
  lemma {:induction false} FilterNoDup<T(!new)>(s: seq<T>, keep: T -> bool)
    requires NoDup(s)
    ensures NoDup(Filter(s, keep))
  {
    if s != [] {
      NoDupTail(s);
      FilterNoDup(s[1..], keep);
    }
  }

  /** In a duplicate-free sequence each element occurs at most once. */
  lemma {:induction false} NoDupCount<T>(s: seq<T>, x: T)
    requires NoDup(s)
    ensures multiset(s)[x] == if x in s then 1 else 0
  {
    if s != [] {
      assert s == [s[0]] + s[1..];
      NoDupTail(s);
      NoDupCount(s[1..], x);
    }
  }

  /** Counting the kept rows of a table without duplicates counts `img`, the set
      of values `end` takes on them, when no two kept rows share that value. */
  lemma {:induction false} FilterCountDistinct<T(!new), U(!new)>(s: seq<T>, keep: T -> bool, end: T -> U, img: set<U>)
    requires NoDup(s)
    requires forall a, b :: a in s && b in s && keep(a) && keep(b) && end(a) == end(b) ==> a == b
    requires forall u :: u in img <==> exists x :: x in s && keep(x) && end(x) == u
    ensures |Filter(s, keep)| == |img|
  {
    if s == [] {
      assert img == {};
    } else {
      var x, rest := s[0], s[1..];
      assert s == [x] + rest;
      NoDupTail(s);
      var smaller := if keep(x) then img - {end(x)} else img;
      forall u ensures u in smaller <==> exists y :: y in rest && keep(y) && end(y) == u {
        if u in smaller {
          var y :| y in s && keep(y) && end(y) == u;
          assert y != x;
          assert y in rest;
        }
      }
      FilterCountDistinct(rest, keep, end, smaller);
      if keep(x) {
        assert end(x) in img;
        assert Filter(s, keep) == [x] + Filter(rest, keep);
      } else {
        assert Filter(s, keep) == Filter(rest, keep);
      }
    }
  }

  /** Create the row unless an equal one exists (`if not qs: create(...)`). */
  function AddIfAbsent<T(==,!new)>(s: seq<T>, x: T): (r: seq<T>)
    ensures x in r
    ensures forall y :: y in r <==> y in s || y == x
    ensures multiset(r)[x] == if x in s then multiset(s)[x] else 1
    ensures forall y :: y != x ==> multiset(r)[y] == multiset(s)[y]
    ensures NoDup(s) ==> NoDup(r)
  {
    if x in s then s else s + [x]
  }

  /** Delete every row equal to `x` (`filter(...).delete()`); deleting an absent
      row leaves the table as it was. */
  function RemoveAll<T(==,!new)>(s: seq<T>, x: T): (r: seq<T>)
    ensures x !in r
    ensures forall y :: y in r <==> y in s && y != x
    ensures multiset(r)[x] == 0
    ensures forall y :: y != x ==> multiset(r)[y] == multiset(s)[y]
    ensures |r| == |s| - multiset(s)[x]
    ensures x !in s ==> r == s
    ensures NoDup(s) ==> NoDup(r)
  {
    if s == [] then []
    else
      assert s == [s[0]] + s[1..];
      var tail := RemoveAll(s[1..], x);
      if s[0] == x then tail
      else
        assert NoDup(s) ==> NoDup(s[1..]) && s[0] !in s[1..] by {
          if NoDup(s) { NoDupTail(s); }
        }
        [s[0]] + tail
  }

  /** Deleting `x` after appending it is deleting it from the original table. */
  lemma {:induction false} RemoveAllAppend<T(!new)>(s: seq<T>, x: T)
    ensures RemoveAll(s + [x], x) == RemoveAll(s, x)
  {
    if s == [] {
      assert RemoveAll([x], x) == RemoveAll([], x) by {
        assert [x][1..] == [];
      }
    } else {
      assert (s + [x])[0] == s[0] && (s + [x])[1..] == s[1..] + [x];
      RemoveAllAppend(s[1..], x);
    }
  }

  /** `x` repeated `n` times: the rows an inner join yields for one left row
      with `n` matching right rows. */
  function Repeat<T(==,!new)>(x: T, n: nat): (r: seq<T>)
    ensures |r| == n
    ensures forall y :: y in r <==> n > 0 && y == x
    ensures multiset(r)[x] == n
  {
    if n == 0 then [] else [x] + Repeat(x, n - 1)
  }

  /** Ordered by `key` descending (Django's `ordering = ('-field',)`); rows with
      equal keys may come in any order. */
  predicate SortedDesc<T>(s: seq<T>, key: T -> int) {
    forall i, j :: 0 <= i < j < |s| ==> key(s[i]) >= key(s[j])
  }

  lemma SortedTail<T>(s: seq<T>, key: T -> int)
    requires SortedDesc(s, key) && s != []
    ensures SortedDesc(s[1..], key)
  {
    forall i, j | 0 <= i < j < |s[1..]| ensures key(s[1..][i]) >= key(s[1..][j]) {
      assert s[1..][i] == s[i + 1] && s[1..][j] == s[j + 1];
    }
  }

  lemma SortedCons<T>(h: T, t: seq<T>, key: T -> int)
    requires SortedDesc(t, key) && (t != [] ==> key(h) >= key(t[0]))
    ensures SortedDesc([h] + t, key)
  {
    forall i, j | 0 <= i < j < |[h] + t| ensures key(([h] + t)[i]) >= key(([h] + t)[j]) {
      assert ([h] + t)[j] == t[j - 1];
      if i > 0 { assert ([h] + t)[i] == t[i - 1]; }
    }
  }

  function Insert<T>(x: T, s: seq<T>, key: T -> int): (r: seq<T>)
    requires SortedDesc(s, key)
    ensures SortedDesc(r, key)
    ensures multiset(r) == multiset(s) + multiset{x}
    ensures r[0] == x || (s != [] && r[0] == s[0])
  {
    if s == [] || key(x) >= key(s[0]) then
      SortedCons(x, s, key);
      [x] + s
    else
      var h, rest := s[0], s[1..];
      assert s == [h] + rest;
      SortedTail(s, key);
      var t := Insert(x, rest, key);
      assert key(h) >= key(t[0]) by {
        if t[0] != x { assert t[0] == s[1]; }
      }
      SortedCons(h, t, key);
      [h] + t
  }

  /** The rows of `s`, ordered by `key` descending. */
  function SortDesc<T>(s: seq<T>, key: T -> int): (r: seq<T>)
    ensures SortedDesc(r, key)
    ensures multiset(r) == multiset(s)
  {
    if s == [] then []
    else
      assert s == [s[0]] + s[1..];
      Insert(s[0], SortDesc(s[1..], key), key)
  }
}
