/**
 * `Array.prototype.sort` with a comparator. The sort is stable (as JavaScript's has
 * been since ES2019); a comparator `cmp` is read as the order `le(a, b) := cmp(a, b) <= 0`.
 * The model is an insertion sort: each element goes after everything already placed
 * that is not greater than it.
 */
module Sorting {

  /** `le` is total and transitive, as a consistent comparator's `<= 0` is. */
  ghost predicate TotalPreorder<T(!new)>(le: (T, T) -> bool) {
    && (forall a: T, b: T :: le(a, b) || le(b, a))
    && (forall a: T, b: T, c: T :: le(a, b) && le(b, c) ==> le(a, c))
  }

  predicate Sorted<T>(s: seq<T>, le: (T, T) -> bool) {
    forall i, j :: 0 <= i < j < |s| ==> le(s[i], s[j])
  }

  /** Places `x` before the first element greater than it. */
  function Insert<T>(x: T, s: seq<T>, le: (T, T) -> bool): (r: seq<T>)
    ensures multiset(r) == multiset(s) + multiset{x}
    ensures |r| == |s| + 1
    decreases |s|
  {
    if s == [] then [x]
    else if !le(s[0], x) then [x] + s
    else
      assert s == [s[0]] + s[1..];
      [s[0]] + Insert(x, s[1..], le)
  }

  /** The stable sort: the prefix is sorted, then the last element is inserted. */
  function Sort<T>(s: seq<T>, le: (T, T) -> bool): (r: seq<T>)
    ensures multiset(r) == multiset(s)
    ensures |r| == |s|
    decreases |s|
  {
    if s == [] then []
    else
      assert s == s[..|s| - 1] + [s[|s| - 1]];
      Insert(s[|s| - 1], Sort(s[..|s| - 1], le), le)
  }

  /** Sorts every bucket of a grouping: the same keys, each bucket rearranged. */
  function SortEach<K, T>(groups: map<K, seq<T>>, le: (T, T) -> bool): (r: map<K, seq<T>>)
    ensures r.Keys == groups.Keys
    ensures forall k :: k in r ==> multiset(r[k]) == multiset(groups[k])
  {
    map k | k in groups :: Sort(groups[k], le)
  }

  lemma {:induction false} InsertSorted<T(!new)>(x: T, s: seq<T>, le: (T, T) -> bool)
    requires TotalPreorder(le) && Sorted(s, le)
    ensures Sorted(Insert(x, s, le), le)
    decreases |s|
  {
    if s != [] && le(s[0], x) {
      InsertSorted(x, s[1..], le);
      var r := Insert(x, s[1..], le);
      assert forall y | y in multiset(r) :: y == x || y in multiset(s[1..]);
      forall j | 0 <= j < |r| ensures le(s[0], r[j]) {
        assert r[j] in multiset(r);
        if r[j] != x {
          assert r[j] in s[1..];
        }
      }
    }
  }

  /** With a consistent comparator the result is ordered. */
  lemma {:induction false} SortSorted<T(!new)>(s: seq<T>, le: (T, T) -> bool)
    requires TotalPreorder(le)
    ensures Sorted(Sort(s, le), le)
    decreases |s|
  {
    if s != [] {
      SortSorted(s[..|s| - 1], le);
      InsertSorted(s[|s| - 1], Sort(s[..|s| - 1], le), le);
    }
  }

  // ---- stability ----------------------------------------------------------------

  /** The elements of `s` that compare equal to `y`, in their order in `s`. */
  function Ties<T>(s: seq<T>, y: T, le: (T, T) -> bool): (r: seq<T>)
    ensures |r| <= |s|
    decreases |s|
  {
    if s == [] then []
    else (if le(s[0], y) && le(y, s[0]) then [s[0]] else []) + Ties(s[1..], y, le)
  }

  lemma {:induction false} TiesAppend<T>(a: seq<T>, b: seq<T>, y: T, le: (T, T) -> bool)
    ensures Ties(a + b, y, le) == Ties(a, y, le) + Ties(b, y, le)
    decreases |a|
  {
    if a == [] {
      assert a + b == b;
    } else {
      assert (a + b)[0] == a[0];
      assert (a + b)[1..] == a[1..] + b;
      TiesAppend(a[1..], b, y, le);
    }
  }

  /** Nothing in a sorted list that starts above `x` ties with `x`. */
  lemma {:induction false} NoTiesAbove<T(!new)>(x: T, s: seq<T>, le: (T, T) -> bool)
    requires TotalPreorder(le) && Sorted(s, le) && s != [] && !le(s[0], x)
    ensures Ties(s, x, le) == []
    decreases |s|
  {
    if |s| > 1 {
      assert le(s[0], s[1]);
      assert s[1..][0] == s[1];
      SortedTail(s, le);
      NoTiesAbove(x, s[1..], le);
    }
  }

  /** Inserting `x` puts it after every element already placed that ties with it. */
  lemma {:induction false} InsertTies<T(!new)>(x: T, s: seq<T>, y: T, le: (T, T) -> bool)
    requires TotalPreorder(le) && Sorted(s, le)
    ensures Ties(Insert(x, s, le), y, le) == Ties(s, y, le) + Ties([x], y, le)
    decreases |s|
  {
    if s == [] {
      assert Insert(x, s, le) == [x];
    } else if !le(s[0], x) {
      InsertInFront(x, s, y, le);
    } else {
      SortedTail(s, le);
      InsertTies(x, s[1..], y, le);
      InsertPastHead(x, s, y, le);
    }
  }

  lemma SortedTail<T>(s: seq<T>, le: (T, T) -> bool)
    requires Sorted(s, le) && s != []
    ensures Sorted(s[1..], le)
  {
    forall i, j | 0 <= i < j < |s[1..]| ensures le(s[1..][i], s[1..][j]) {
      assert s[1..][i] == s[i + 1] && s[1..][j] == s[j + 1];
    }
  }

  lemma InsertInFront<T(!new)>(x: T, s: seq<T>, y: T, le: (T, T) -> bool)
    requires TotalPreorder(le) && Sorted(s, le) && s != [] && !le(s[0], x)
    ensures Ties(Insert(x, s, le), y, le) == Ties(s, y, le) + Ties([x], y, le)
  {
    assert Insert(x, s, le) == [x] + s;
    TiesAppend([x], s, y, le);
    if le(x, y) && le(y, x) {
      TiesOfEquivalent(s, x, y, le);
      NoTiesAbove(x, s, le);
    } else {
      assert Ties([x], y, le) == [] + Ties([x][1..], y, le);
    }
  }

  lemma InsertPastHead<T>(x: T, s: seq<T>, y: T, le: (T, T) -> bool)
    requires s != [] && le(s[0], x)
    requires Ties(Insert(x, s[1..], le), y, le) == Ties(s[1..], y, le) + Ties([x], y, le)
    ensures Ties(Insert(x, s, le), y, le) == Ties(s, y, le) + Ties([x], y, le)
  {
    var t := Insert(x, s[1..], le);
    assert Insert(x, s, le) == [s[0]] + t;
    TiesAppend([s[0]], t, y, le);
    assert s == [s[0]] + s[1..];
    TiesAppend([s[0]], s[1..], y, le);
  }

  /** Tying with `y` is tying with anything `y` ties with. */
  lemma TiesOfEquivalent<T(!new)>(s: seq<T>, x: T, y: T, le: (T, T) -> bool)
    requires TotalPreorder(le) && le(x, y) && le(y, x)
    ensures Ties(s, y, le) == Ties(s, x, le)
    decreases |s|
  {
    if s != [] {
      TiesOfEquivalent(s[1..], x, y, le);
    }
  }

  /**
   * Stability: for every `y`, the elements that compare equal to `y` come out in the
   * order they went in.
   */
  lemma {:induction false} SortStable<T(!new)>(s: seq<T>, y: T, le: (T, T) -> bool)
    requires TotalPreorder(le)
    ensures Ties(Sort(s, le), y, le) == Ties(s, y, le)
    decreases |s|
  {
    if s != [] {
      var init := s[..|s| - 1];
      var last := s[|s| - 1];
      SortStable(init, y, le);
      SortSorted(init, le);
      InsertTies(last, Sort(init, le), y, le);
      SplitLast(s);
      TiesAppend(init, [last], y, le);
    }
  }

  lemma SplitLast<T>(s: seq<T>)
    requires s != []
    ensures s == s[..|s| - 1] + [s[|s| - 1]]
  {
  }
}
