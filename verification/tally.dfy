/**
 * What every reading-log script derives from its sorted books (`buildDerivedData`,
 * `monthKey`, the heat level and the year range of src/home.js, with copies in
 * src/script.js, script.js and reading-heatmap.js). The derivations are written as the
 * scripts' `forEach` loops (fold over a prefix, one element at a time); each comes with
 * a reference description it is proved equal to.
 */
module Tally {
  import opened Text

  /** The elements whose key is `k`, in their original order. */
  function Select<T(!new), K(==)>(s: seq<T>, key: T -> Option<K>, k: K): (r: seq<T>)
    ensures forall x :: x in r <==> x in s && key(x) == Some(k)
    ensures |r| <= |s|
    decreases |s|
  {
    if s == [] then []
    else
      var init := s[..|s| - 1];
      assert s == init + [s[|s| - 1]];
      Select(init, key, k) + (if key(s[|s| - 1]) == Some(k) then [s[|s| - 1]] else [])
  }

  /** Two keyings that pick out the same elements select the same subsequence. */
  lemma {:induction false} SelectSame<T(!new), K, L>(s: seq<T>, key1: T -> Option<K>, k1: K, key2: T -> Option<L>, k2: L)
    requires forall x :: x in s ==> (key1(x) == Some(k1) <==> key2(x) == Some(k2))
    ensures Select(s, key1, k1) == Select(s, key2, k2)
    decreases |s|
  {
    if s != [] {
      var init := s[..|s| - 1];
      assert forall x :: x in init ==> x in s;
      SelectSame(init, key1, k1, key2, k2);
      assert s[|s| - 1] in s;
    }
  }

  /** `getOrCreate(map, key).push(x)` for every element that has a key. */
  function Group<T(!new), K(==)>(s: seq<T>, key: T -> Option<K>): map<K, seq<T>>
    decreases |s|
  {
    if s == [] then map[]
    else
      var g := Group(s[..|s| - 1], key);
      var x := s[|s| - 1];
      match key(x)
      case None => g
      case Some(k) => g[k := (if k in g then g[k] else []) + [x]]
  }

  /** A bucket exists exactly for the keys that occur, and holds exactly their elements, in order. */
  lemma {:induction false} GroupIsSelect<T(!new), K>(s: seq<T>, key: T -> Option<K>, k: K)
    ensures k in Group(s, key) <==> Select(s, key, k) != []
    ensures k in Group(s, key) ==> Group(s, key)[k] == Select(s, key, k)
    decreases |s|
  {
    if s != [] {
      GroupIsSelect(s[..|s| - 1], key, k);
    }
  }

  /** `GroupIsSelect` for every key at once. */
  lemma GroupAll<T(!new), K>(s: seq<T>, key: T -> Option<K>)
    ensures forall k :: k in Group(s, key) <==> Select(s, key, k) != []
    ensures forall k :: k in Group(s, key) ==> Group(s, key)[k] == Select(s, key, k)
  {
    forall k ensures k in Group(s, key) <==> Select(s, key, k) != [] {
      GroupIsSelect(s, key, k);
    }
    forall k | k in Group(s, key) ensures Group(s, key)[k] == Select(s, key, k) {
      GroupIsSelect(s, key, k);
    }
  }

  /** Each keyed element lies in the bucket of its key and in no other. */
  lemma ExactlyOneBucket<T(!new), K>(s: seq<T>, key: T -> Option<K>, x: T, k: K)
    requires x in s && key(x).Some?
    ensures k in Group(s, key) && x in Group(s, key)[k] <==> k == key(x).value
  {
    GroupIsSelect(s, key, k);
    GroupIsSelect(s, key, key(x).value);
  }

  /** `counts.set(key, (counts.get(key) || 0) + 1)` for every keyed element. */
  function Count<T(!new), K(==)>(s: seq<T>, key: T -> Option<K>): map<K, nat>
    decreases |s|
  {
    if s == [] then map[]
    else
      var c := Count(s[..|s| - 1], key);
      match key(s[|s| - 1])
      case None => c
      case Some(k) => c[k := (if k in c then c[k] else 0) + 1]
  }

  /** A count is the size of the key's bucket. */
  lemma {:induction false} CountIsSize<T(!new), K>(s: seq<T>, key: T -> Option<K>, k: K)
    ensures k in Count(s, key) <==> Select(s, key, k) != []
    ensures k in Count(s, key) ==> Count(s, key)[k] == |Select(s, key, k)|
    decreases |s|
  {
    if s != [] {
      CountIsSize(s[..|s| - 1], key, k);
    }
  }

  /** `CountIsSize` for every key at once. */
  lemma CountAll<T(!new), K>(s: seq<T>, key: T -> Option<K>)
    ensures forall k :: k in Count(s, key) <==> Select(s, key, k) != []
    ensures forall k :: k in Count(s, key) ==> Count(s, key)[k] == |Select(s, key, k)|
  {
    forall k ensures k in Count(s, key) <==> Select(s, key, k) != [] {
      CountIsSize(s, key, k);
    }
    forall k | k in Count(s, key) ensures Count(s, key)[k] == |Select(s, key, k)| {
      CountIsSize(s, key, k);
    }
  }

  /** `if (!latest.has(key) || latest.get(key) < snap) latest.set(key, snap)` for every keyed element. */
  function Latest<T(!new), K(==)>(s: seq<T>, key: T -> Option<K>, snap: T -> int): map<K, int>
    decreases |s|
  {
    if s == [] then map[]
    else
      var m := Latest(s[..|s| - 1], key, snap);
      var x := s[|s| - 1];
      match key(x)
      case None => m
      case Some(k) => if k !in m || m[k] < snap(x) then m[k := snap(x)] else m
  }

  /** The recorded value is the largest snapshot among the key's elements, and one of them has it. */
  lemma {:induction false} LatestIsMax<T(!new), K>(s: seq<T>, key: T -> Option<K>, snap: T -> int, k: K)
    ensures k in Latest(s, key, snap) <==> Select(s, key, k) != []
    ensures k in Latest(s, key, snap) ==>
      && (forall x :: x in Select(s, key, k) ==> snap(x) <= Latest(s, key, snap)[k])
      && (exists x :: x in Select(s, key, k) && snap(x) == Latest(s, key, snap)[k])
    decreases |s|
  {
    if s != [] {
      var init := s[..|s| - 1];
      var x := s[|s| - 1];
      LatestIsMax(init, key, snap, k);
      assert Select(s, key, k) == Select(init, key, k) + (if key(x) == Some(k) then [x] else []);
      if k in Latest(s, key, snap) {
        var v := Latest(s, key, snap)[k];
        if key(x) == Some(k) && (k !in Latest(init, key, snap) || Latest(init, key, snap)[k] < snap(x)) {
          assert v == snap(x) && x in Select(s, key, k);
        } else {
          var w :| w in Select(init, key, k) && snap(w) == Latest(init, key, snap)[k];
          assert w in Select(s, key, k) && snap(w) == v;
        }
      }
    }
  }

  /** The reread badge: the title was logged more than once and this entry is its latest month. */
  predicate Badge<K(==)>(counts: map<K, nat>, latest: map<K, int>, k: K, snapshot: int) {
    (if k in counts then counts[k] else 0) > 1 && k in latest && latest[k] == snapshot
  }

  /** A reread title shows its badge on at least one entry, and never on an entry older than another. */
  lemma RereadBadge<T(!new), K>(s: seq<T>, key: T -> Option<K>, snap: T -> int, k: K)
    requires k in Count(s, key) && Count(s, key)[k] > 1
    ensures exists x :: x in s && key(x) == Some(k) && Badge(Count(s, key), Latest(s, key, snap), k, snap(x))
    ensures forall x, y ::
      (x in s && y in s && key(x) == Some(k) && key(y) == Some(k) && Badge(Count(s, key), Latest(s, key, snap), k, snap(x)))
      ==> snap(y) <= snap(x)
  {
    CountIsSize(s, key, k);
    LatestIsMax(s, key, snap, k);
  }

  /** A single reading never shows the badge. */
  lemma NoBadgeOnce<T(!new), K>(s: seq<T>, key: T -> Option<K>, snap: T -> int, k: K, snapshot: int)
    requires |Select(s, key, k)| <= 1
    ensures !Badge(Count(s, key), Latest(s, key, snap), k, snapshot)
  {
    CountIsSize(s, key, k);
  }

  /** `year * 100 + month`: orders entries by month for months 1 to 12. */
  function Snapshot(year: int, month: int): int {
    year * 100 + month
  }

  lemma SnapshotOrder(y1: int, m1: int, y2: int, m2: int)
    requires 1 <= m1 <= 12 && 1 <= m2 <= 12
    ensures Snapshot(y1, m1) < Snapshot(y2, m2) <==> y1 < y2 || (y1 == y2 && m1 < m2)
  {
  }

  /** `monthKey(year, month)`: the year, a dash, then the month padded to two digits. */
  function MonthKey(year: int, month: int): (r: string)
    ensures StartsWith(r, IntToString(year) + "-")
    ensures 0 <= month <= 9 ==> r == IntToString(year) + "-0" + IntToString(month)
    ensures month >= 10 ==> r == IntToString(year) + "-" + IntToString(month)
  {
    var m := PadStart2(IntToString(month));
    assert (IntToString(year) + "-" + m)[..|IntToString(year)| + 1] == IntToString(year) + "-";
    IntToString(year) + "-" + m
  }

  /**
   * The first dash of a month key after the year's sign ends the year: the key starts
   * with `-` exactly for a negative year, and the year's digits hold no dash.
   */
  lemma MonthKeyParts(year: int, month: int)
    ensures (if year < 0 then 1 else 0) < |IntToString(year)|
    ensures MonthKey(year, month)[0] == '-' <==> year < 0
    ensures IndexOf(MonthKey(year, month)[if year < 0 then 1 else 0..], '-')
              == Some(|IntToString(year)| - if year < 0 then 1 else 0)
    ensures MonthKey(year, month)[..|IntToString(year)|] == IntToString(year)
    ensures MonthKey(year, month)[|IntToString(year)| + 1..] == PadStart2(IntToString(month))
  {
    var a := IntToString(year);
    SignOfIntToString(year);
    DigitsAfterSign(year);
    SplitKey(a, PadStart2(IntToString(month)), if year < 0 then 1 else 0);
  }

  /** The pieces of `a + "-" + pad` when `a` has only digits after its first `s` characters. */
  lemma SplitKey(a: string, pad: string, s: nat)
    requires s < |a| && AllDigits(a[s..])
    ensures (a + "-" + pad)[0] == a[0]
    ensures IndexOf((a + "-" + pad)[s..], '-') == Some(|a| - s)
    ensures (a + "-" + pad)[..|a|] == a
    ensures (a + "-" + pad)[|a| + 1..] == pad
  {
    KeyPieces(a, pad, s);
    FirstDashAt(a[s..], pad);
  }

  lemma KeyPieces(a: string, pad: string, s: nat)
    requires s < |a|
    ensures var key := a + "-" + pad;
      && key[0] == a[0] && key[..|a|] == a && key[|a| + 1..] == pad
      && key[s..] == a[s..] + "-" + pad
  {
  }

  lemma DigitsAfterSign(n: int)
    ensures var a := IntToString(n);
      AllDigits(a[if n < 0 then 1 else 0..])
  {
  }

  lemma FirstDashAt(a: string, rest: string)
    requires AllDigits(a)
    ensures IndexOf(a + "-" + rest, '-') == Some(|a|)
  {
    var t := a + "-" + rest;
    assert t[..|a|] == a;
    assert '-' !in a;
    IndexOfFirst(t, '-', |a|);
  }

  /** A printed integer starts with `-` exactly when it is negative, and then has two characters or more. */
  lemma SignOfIntToString(n: int)
    ensures var a := IntToString(n);
      (a[0] == '-' <==> n < 0) && (n < 0 ==> |a| >= 2)
  {
    if n < 0 {
      assert IntToString(n) == "-" + NatToString(-n);
    }
  }

  /** Different months never share a key, whatever the signs of the year and month. */
  lemma MonthKeyInjective(y1: int, m1: int, y2: int, m2: int)
    requires MonthKey(y1, m1) == MonthKey(y2, m2)
    ensures y1 == y2 && m1 == m2
  {
    MonthKeyParts(y1, m1);
    MonthKeyParts(y2, m2);
    var a1, a2 := IntToString(y1), IntToString(y2);
    assert |a1| == |a2|;
    assert a1 == a2;
    ParseIntOfIntToString(y1);
    ParseIntOfIntToString(y2);
    PadInjective(m1, m2);
  }

  /** A padded month starts with `0` exactly when its digits needed padding. */
  lemma PadZero(m: int)
    requires m >= 0
    ensures PadStart2(IntToString(m))[0] == '0' <==> |IntToString(m)| == 1
  {
    assert IntToString(m) == NatToString(m);
  }

  lemma PadInjective(m1: int, m2: int)
    requires PadStart2(IntToString(m1)) == PadStart2(IntToString(m2))
    ensures m1 == m2
  {
    var s1, s2 := IntToString(m1), IntToString(m2);
    var p := PadStart2(s1);
    SignOfIntToString(m1);
    SignOfIntToString(m2);
    if m1 < 0 || m2 < 0 {
      assert p[0] == '-';
      assert s1 == p == s2;
    } else {
      PadZero(m1);
      PadZero(m2);
      assert |s1| == |s2|;
      assert s1 == p[|p| - |s1|..] == s2;
    }
    ParseIntOfIntToString(m1);
    ParseIntOfIntToString(m2);
  }

  /** `level-${Math.min(count, 4)}` on a cell with books; an empty cell gets no level. */
  function HeatLevel(count: nat): (r: Option<nat>)
    ensures r.None? <==> count == 0
    ensures r.Some? ==> 1 <= r.value <= 4 && r.value <= count
    ensures r.Some? && count <= 4 ==> r.value == count
    ensures count >= 4 ==> r == Some(4)
  {
    if count == 0 then None else if count < 4 then Some(count) else Some(4)
  }

  /** `Math.min(...years, currentYear)`. */
  function MinYear(years: seq<int>, current: int): (r: int)
    ensures r <= current && forall y :: y in years ==> r <= y
    ensures r == current || r in years
    decreases |years|
  {
    if years == [] then current
    else
      var rest := MinYear(years[1..], current);
      assert forall y :: y in years ==> y == years[0] || y in years[1..];
      if years[0] < rest then years[0] else rest
  }

  /** `buildYearRange`: every year from the current one down to the earliest year with data. */
  method YearRange(years: seq<int>, current: int) returns (r: seq<int>)
    ensures |r| == current - MinYear(years, current) + 1
    ensures forall i :: 0 <= i < |r| ==> r[i] == current - i
    ensures forall y :: y in r <==> MinYear(years, current) <= y <= current
    ensures forall y :: y in years && y <= current ==> y in r
  {
    var lowest := MinYear(years, current);
    r := [];
    var year := current;
    while year >= lowest
      invariant lowest - 1 <= year <= current
      invariant |r| == current - year
      invariant forall i :: 0 <= i < |r| ==> r[i] == current - i
      decreases year - lowest
    {
      r := r + [year];
      year := year - 1;
    }
    forall y | lowest <= y <= current
      ensures y in r
    {
      assert r[current - y] == y;
    }
  }

  /** The months that carry a season emoji in the heatmap header: 3, 6, 9 and 12. */
  function SeasonEmoji(month: int): (r: Option<string>)
    ensures r.Some? <==> month in {3, 6, 9, 12}
    ensures r.Some? ==> 1 <= month <= 12 && month % 3 == 0
  {
    if month == 3 then Some("\U{1F338}")
    else if month == 6 then Some("\U{2600}\U{FE0F}")
    else if month == 9 then Some("\U{1F342}")
    else if month == 12 then Some("\U{2744}\U{FE0F}")
    else None
  }
}
