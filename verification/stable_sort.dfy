/** An insertion sort over any "may precede" relation. It stands for the
    engine's `Array.prototype.sort`, which promises no particular order
    when the comparator is inconsistent. */
module StableSort {

  /** Inserting `x` in front of the first element it may precede. */
  function Insert<T>(x: T, s: seq<T>, le: (T, T) -> bool): (r: seq<T>)
    ensures multiset(r) == multiset(s) + multiset{x}
    ensures |r| == |s| + 1
  {
    if |s| == 0 then [x]
    else if le(x, s[0]) then [x] + s
    else
      assert s == [s[0]] + s[1..];
      [s[0]] + Insert(x, s[1..], le)
  }

  /** Each element is inserted into the sorted rest, ahead of the first
      element it may precede. */
  function Sort<T>(s: seq<T>, le: (T, T) -> bool): (r: seq<T>)
    ensures multiset(r) == multiset(s)
    ensures |r| == |s|
  {
    if |s| == 0 then []
    else
      assert s == [s[0]] + s[1..];
      Insert(s[0], Sort(s[1..], le), le)
  }

  predicate Sorted<T>(s: seq<T>, le: (T, T) -> bool) {
    forall i, j :: 0 <= i < j < |s| ==> le(s[i], s[j])
  }

  ghost predicate TransitiveOn<T>(pool: seq<T>, le: (T, T) -> bool) {
    forall a, b, c :: a in pool && b in pool && c in pool && le(a, b) && le(b, c) ==> le(a, c)
  }

  ghost predicate TotalOn<T>(pool: seq<T>, le: (T, T) -> bool) {
    forall a, b :: a in pool && b in pool ==> le(a, b) || le(b, a)
  }

  lemma {:induction false} InsertSorted<T>(x: T, s: seq<T>, pool: seq<T>, le: (T, T) -> bool)
    requires TotalOn(pool, le) && TransitiveOn(pool, le)
    requires x in pool && forall y :: y in s ==> y in pool
    requires Sorted(s, le)
    ensures Sorted(Insert(x, s, le), le)
  {
    if |s| == 0 {
    } else if le(x, s[0]) {
      var r := [x] + s;
      forall i, j | 0 <= i < j < |r| ensures le(r[i], r[j]) {
        if i == 0 && j > 1 {
          assert r[j] == s[j - 1] && s[0] in pool && s[j - 1] in pool;
        }
      }
    } else {
      assert s[0] in pool;
      var t := Insert(x, s[1..], le);
      assert forall y :: y in s[1..] ==> y in s;
      InsertSorted(x, s[1..], pool, le);
      var r := [s[0]] + t;
      forall i, j | 0 <= i < j < |r| ensures le(r[i], r[j]) {
        if i == 0 {
          var y := r[j];
          assert y in multiset(t);
          assert y == x || y in s[1..];
          if y != x {
            var k :| 1 <= k < |s| && s[k] == y;
          }
        }
      }
    }
  }

  lemma {:induction false} SortSortedIn<T>(s: seq<T>, pool: seq<T>, le: (T, T) -> bool)
    requires TotalOn(pool, le) && TransitiveOn(pool, le)
    requires forall y :: y in s ==> y in pool
    ensures Sorted(Sort(s, le), le)
  {
    if |s| > 0 {
      SortSortedIn(s[1..], pool, le);
      var t := Sort(s[1..], le);
      forall y | y in t ensures y in pool {
        assert y in multiset(t);
        assert y in s[1..];
      }
      InsertSorted(s[0], t, pool, le);
    }
  }

  /** With a total relation that is transitive on the input, the result is
      in order. */
  lemma SortSorted<T>(s: seq<T>, le: (T, T) -> bool)
    requires TotalOn(s, le) && TransitiveOn(s, le)
    ensures Sorted(Sort(s, le), le)
  {
    SortSortedIn(s, s, le);
  }
}
