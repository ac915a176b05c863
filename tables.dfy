/** Generic operations on in-memory tables (sequences of rows): selecting the
    rows with a given key, sums and means of a column, grouping by an integer
    key in ascending key order, removing duplicate keys, and a stable sort by
    an integer key. */
module Tables {

  datatype Option<T> = None | Some(value: T)

  /** The rows whose key is k, in their original order (SelectMultiset: each
      such row as many times as it occurs in the table, and no other row). */
  function Select<T, K(==)>(xs: seq<T>, key: T -> K, k: K): (r: seq<T>)
    ensures |r| <= |xs|
    ensures forall i :: 0 <= i < |r| ==> r[i] in xs && key(r[i]) == k
    ensures forall i :: 0 <= i < |xs| && key(xs[i]) == k ==> xs[i] in r
  {
    if xs == [] then []
    else (if key(xs[0]) == k then [xs[0]] else []) + Select(xs[1..], key, k)
  }

  /** Selecting keeps every row with key k exactly as often as the table has
      it, and drops every other row. */
  lemma {:induction false} SelectMultiset<T, K>(xs: seq<T>, key: T -> K, k: K)
    ensures forall x :: multiset(Select(xs, key, k))[x] == if key(x) == k then multiset(xs)[x] else 0
  {
    if xs != [] {
      SelectMultiset(xs[1..], key, k);
      var head := if key(xs[0]) == k then [xs[0]] else [];
      assert xs == [xs[0]] + xs[1..];
      assert Select(xs, key, k) == head + Select(xs[1..], key, k);
    }
  }

  lemma {:induction false} SelectAppend<T, K>(a: seq<T>, b: seq<T>, key: T -> K, k: K)
    ensures Select(a + b, key, k) == Select(a, key, k) + Select(b, key, k)
    decreases |a|
  {
    if a != [] {
      var head := if key(a[0]) == k then [a[0]] else [];
      assert (a + b)[0] == a[0];
      assert (a + b)[1..] == a[1..] + b;
      assert Select(a + b, key, k) == head + Select(a[1..] + b, key, k);
      SelectAppend(a[1..], b, key, k);
      assert Select(a, key, k) == head + Select(a[1..], key, k);
    } else {
      assert a + b == b;
    }
  }

  lemma {:induction false} SelectNone<T, K>(xs: seq<T>, key: T -> K, k: K)
    requires forall x :: x in xs ==> key(x) != k
    ensures Select(xs, key, k) == []
  {
    if xs != [] {
      SelectNone(xs[1..], key, k);
    }
  }

  /** Sum of a real column. */
  function Total<T>(xs: seq<T>, f: T -> real): real {
    if xs == [] then 0.0 else f(xs[0]) + Total(xs[1..], f)
  }

  /** Sum of an integer column. */
  function Tally<T>(xs: seq<T>, f: T -> int): int {
    if xs == [] then 0 else f(xs[0]) + Tally(xs[1..], f)
  }

  lemma {:induction false} TotalAppend<T>(a: seq<T>, b: seq<T>, f: T -> real)
    ensures Total(a + b, f) == Total(a, f) + Total(b, f)
    decreases |a|
  {
    if a != [] {
      assert (a + b)[1..] == a[1..] + b;
      TotalAppend(a[1..], b, f);
    } else {
      assert a + b == b;
    }
  }

  lemma {:induction false} TallyAppend<T>(a: seq<T>, b: seq<T>, f: T -> int)
    ensures Tally(a + b, f) == Tally(a, f) + Tally(b, f)
    decreases |a|
  {
    if a != [] {
      assert (a + b)[1..] == a[1..] + b;
      TallyAppend(a[1..], b, f);
    } else {
      assert a + b == b;
    }
  }

  /** Taking out the row at index i of b takes its value out of the sum. */
  lemma TotalRemove<T>(b: seq<T>, i: int, f: T -> real)
    requires 0 <= i < |b|
    ensures Total(b, f) == f(b[i]) + Total(b[..i] + b[i + 1..], f)
  {
    var l, r := b[..i], b[i + 1..];
    SplitAround(b, i);
    TotalAppend(l, [b[i]] + r, f);
    TotalCons(b[i], r, f);
    TotalAppend(l, r, f);
  }

  lemma TallyRemove<T>(b: seq<T>, i: int, f: T -> int)
    requires 0 <= i < |b|
    ensures Tally(b, f) == f(b[i]) + Tally(b[..i] + b[i + 1..], f)
  {
    var l, r := b[..i], b[i + 1..];
    SplitAround(b, i);
    TallyAppend(l, [b[i]] + r, f);
    TallyCons(b[i], r, f);
    TallyAppend(l, r, f);
  }

  lemma SplitAround<T>(b: seq<T>, i: int)
    requires 0 <= i < |b|
    ensures b == b[..i] + ([b[i]] + b[i + 1..])
  {
  }

  lemma TotalCons<T>(x: T, r: seq<T>, f: T -> real)
    ensures Total([x] + r, f) == f(x) + Total(r, f)
  {
    assert ([x] + r)[1..] == r;
  }

  lemma TallyCons<T>(x: T, r: seq<T>, f: T -> int)
    ensures Tally([x] + r, f) == f(x) + Tally(r, f)
  {
    assert ([x] + r)[1..] == r;
  }

  lemma MultisetRemove<T>(b: seq<T>, i: int)
    requires 0 <= i < |b|
    ensures multiset(b[..i] + b[i + 1..]) == multiset(b) - multiset{b[i]}
  {
    assert b == b[..i] + [b[i]] + b[i + 1..];
  }

  /** A sum does not depend on the order of the rows. */
  lemma {:induction false} TotalPermutation<T>(a: seq<T>, b: seq<T>, f: T -> real)
    requires multiset(a) == multiset(b)
    ensures Total(a, f) == Total(b, f)
    decreases |a|
  {
    if a == [] {
      assert |b| == |multiset(b)| == 0;
    } else {
      assert a[0] in multiset(b);
      var i :| 0 <= i < |b| && b[i] == a[0];
      MultisetRemove(b, i);
      MultisetRemove(a, 0);
      TotalPermutation(a[1..], b[..i] + b[i + 1..], f);
      TotalRemove(b, i, f);
    }
  }

  /** A sum does not depend on the order of the rows. */
  lemma {:induction false} TallyPermutation<T>(a: seq<T>, b: seq<T>, f: T -> int)
    requires multiset(a) == multiset(b)
    ensures Tally(a, f) == Tally(b, f)
    decreases |a|
  {
    if a == [] {
      assert |b| == |multiset(b)| == 0;
    } else {
      assert a[0] in multiset(b);
      var i :| 0 <= i < |b| && b[i] == a[0];
      MultisetRemove(b, i);
      MultisetRemove(a, 0);
      TallyPermutation(a[1..], b[..i] + b[i + 1..], f);
      TallyRemove(b, i, f);
    }
  }

  /** The arithmetic mean of a real column over a non-empty table. */
  function Mean<T>(xs: seq<T>, f: T -> real): (m: real)
    requires xs != []
    ensures m * |xs| as real == Total(xs, f)
  {
    Total(xs, f) / |xs| as real
  }

  lemma {:induction false} TotalBounds<T>(xs: seq<T>, f: T -> real, lo: real, hi: real)
    requires forall x :: x in xs ==> lo <= f(x) <= hi
    ensures lo * |xs| as real <= Total(xs, f) <= hi * |xs| as real
  {
    if xs != [] {
      TotalBounds(xs[1..], f, lo, hi);
      assert lo * |xs| as real == lo * (|xs| - 1) as real + lo;
      assert hi * |xs| as real == hi * (|xs| - 1) as real + hi;
    }
  }

  /** A mean lies between any lower and upper bound of the column. */
  lemma MeanBounds<T>(xs: seq<T>, f: T -> real, lo: real, hi: real)
    requires xs != []
    requires forall x :: x in xs ==> lo <= f(x) <= hi
    ensures lo <= Mean(xs, f) <= hi
  {
    TotalBounds(xs, f, lo, hi);
    QuotientWithin(Total(xs, f), |xs| as real, lo, hi);
  }

  /** A total between lo * n and hi * n, divided by n > 0, lies between lo and hi. */
  lemma QuotientWithin(t: real, n: real, lo: real, hi: real)
    requires n > 0.0
    requires lo * n <= t <= hi * n
    ensures lo <= t / n <= hi
  {
    var m := t / n;
    assert m * n == t;
    Cancel(lo, m, n);
    Cancel(m, hi, n);
  }

  /** Dividing both sides by a positive number keeps an inequality. */
  lemma Cancel(a: real, b: real, n: real)
    requires n > 0.0 && a * n <= b * n
    ensures a <= b
  {
    assert (b - a) * n == b * n - a * n;
  }

  /** One group of a group-by: its key and its rows. */
  datatype Group<T> = Group(key: int, rows: seq<T>)

  /** The non-empty groups of rows by key, for keys lo .. hi in ascending
      order (a sorted group-by over a known key range). */
  function GroupBy<T>(xs: seq<T>, key: T -> int, lo: int, hi: int): (gs: seq<Group<T>>)
    ensures forall i :: 0 <= i < |gs| ==>
      lo <= gs[i].key <= hi && gs[i].rows != [] && gs[i].rows == Select(xs, key, gs[i].key)
    ensures forall i, j :: 0 <= i < j < |gs| ==> gs[i].key < gs[j].key
    ensures |gs| <= if hi < lo then 0 else hi - lo + 1
    decreases hi - lo + 1
  {
    if lo > hi then []
    else
      var g := Select(xs, key, lo);
      var rest := GroupBy(xs, key, lo + 1, hi);
      if g == [] then rest else [Group(lo, g)] + rest
  }

  /** Every key in lo .. hi that some row has is the key of a group; the
      lemma returns that group's position. */
  lemma {:induction false} GroupByHasKey<T>(xs: seq<T>, key: T -> int, lo: int, hi: int, k: int) returns (i: int)
    requires lo <= k <= hi && Select(xs, key, k) != []
    ensures 0 <= i < |GroupBy(xs, key, lo, hi)| && GroupBy(xs, key, lo, hi)[i].key == k
    decreases hi - lo
  {
    if k == lo {
      GroupByUnfold(xs, key, lo, hi);
      i := 0;
    } else {
      var j := GroupByHasKey(xs, key, lo + 1, hi, k);
      i := GroupByShift(xs, key, lo, hi, j);
    }
  }

  /** Group j of the keys after lo is a group of the keys from lo on. */
  lemma GroupByShift<T>(xs: seq<T>, key: T -> int, lo: int, hi: int, j: int) returns (i: int)
    requires lo <= hi && 0 <= j < |GroupBy(xs, key, lo + 1, hi)|
    ensures 0 <= i < |GroupBy(xs, key, lo, hi)| && GroupBy(xs, key, lo, hi)[i] == GroupBy(xs, key, lo + 1, hi)[j]
  {
    GroupByUnfold(xs, key, lo, hi);
    i := if Select(xs, key, lo) == [] then j else j + 1;
  }

  /** Every row whose key lies in lo .. hi has its group. */
  lemma GroupByComplete<T>(xs: seq<T>, key: T -> int, lo: int, hi: int, j: int) returns (i: int)
    requires 0 <= j < |xs| && lo <= key(xs[j]) <= hi
    ensures 0 <= i < |GroupBy(xs, key, lo, hi)| && GroupBy(xs, key, lo, hi)[i].key == key(xs[j])
  {
    assert xs[j] in Select(xs, key, key(xs[j]));
    i := GroupByHasKey(xs, key, lo, hi, key(xs[j]));
  }

  lemma GroupByUnfold<T>(xs: seq<T>, key: T -> int, lo: int, hi: int)
    requires lo <= hi
    ensures var g := Select(xs, key, lo);
      GroupBy(xs, key, lo, hi) == if g == [] then GroupBy(xs, key, lo + 1, hi) else [Group(lo, g)] + GroupBy(xs, key, lo + 1, hi)
  {
  }

  /** The distinct values of f over the rows. */
  ghost function Image<T, K>(xs: seq<T>, f: T -> K): set<K> {
    set x | x in xs :: f(x)
  }

  /** All rows of the groups, group after group. */
  function Flatten<T>(gs: seq<Group<T>>): seq<T> {
    if gs == [] then [] else gs[0].rows + Flatten(gs[1..])
  }

  /** The rows whose key lies in lo .. hi. */
  function Within<T>(xs: seq<T>, key: T -> int, lo: int, hi: int): seq<T> {
    if xs == [] then []
    else (if lo <= key(xs[0]) <= hi then [xs[0]] else []) + Within(xs[1..], key, lo, hi)
  }

  lemma {:induction false} WithinSplit<T>(xs: seq<T>, key: T -> int, lo: int, hi: int)
    requires lo <= hi
    ensures multiset(Within(xs, key, lo, hi)) == multiset(Select(xs, key, lo)) + multiset(Within(xs, key, lo + 1, hi))
  {
    if xs != [] {
      WithinSplit(xs[1..], key, lo, hi);
    }
  }

  lemma {:induction false} WithinEmpty<T>(xs: seq<T>, key: T -> int, lo: int, hi: int)
    requires lo > hi
    ensures Within(xs, key, lo, hi) == []
  {
    if xs != [] {
      WithinEmpty(xs[1..], key, lo, hi);
    }
  }

  lemma {:induction false} WithinAll<T>(xs: seq<T>, key: T -> int, lo: int, hi: int)
    requires forall x :: x in xs ==> lo <= key(x) <= hi
    ensures Within(xs, key, lo, hi) == xs
  {
    if xs != [] {
      WithinAll(xs[1..], key, lo, hi);
    }
  }

  lemma {:induction false} GroupByPartitionsWithin<T>(xs: seq<T>, key: T -> int, lo: int, hi: int)
    ensures multiset(Flatten(GroupBy(xs, key, lo, hi))) == multiset(Within(xs, key, lo, hi))
    decreases hi - lo + 1
  {
    if lo > hi {
      WithinEmpty(xs, key, lo, hi);
    } else {
      GroupByPartitionsWithin(xs, key, lo + 1, hi);
      WithinSplit(xs, key, lo, hi);
      var g := Select(xs, key, lo);
      if g != [] {
        assert Flatten(GroupBy(xs, key, lo, hi)) == g + Flatten(GroupBy(xs, key, lo + 1, hi));
      }
    }
  }

  /** Grouping neither drops nor duplicates a row: when every key lies in
      lo .. hi, the groups' rows together are a permutation of the table. */
  lemma GroupByPartitions<T>(xs: seq<T>, key: T -> int, lo: int, hi: int)
    requires forall x :: x in xs ==> lo <= key(x) <= hi
    ensures multiset(Flatten(GroupBy(xs, key, lo, hi))) == multiset(xs)
  {
    GroupByPartitionsWithin(xs, key, lo, hi);
    WithinAll(xs, key, lo, hi);
  }

  function GroupKeys<T>(gs: seq<Group<T>>): seq<int> {
    seq(|gs|, i requires 0 <= i < |gs| => gs[i].key)
  }

  predicate NoDuplicates<K(==)>(s: seq<K>) {
    forall i, j :: 0 <= i < j < |s| ==> s[i] != s[j]
  }

  lemma {:induction false} DistinctCardinality<K>(s: seq<K>)
    requires NoDuplicates(s)
    ensures |set x | x in s| == |s|
  {
    if s != [] {
      DistinctCardinality(s[1..]);
      assert (set x | x in s) == (set x | x in s[1..]) + {s[0]};
    }
  }

  /** There is one group per distinct key in lo .. hi present in the table. */
  lemma GroupCount<T>(xs: seq<T>, key: T -> int, lo: int, hi: int)
    ensures |GroupBy(xs, key, lo, hi)| == |set x | x in xs && lo <= key(x) <= hi :: key(x)|
  {
    var gs := GroupBy(xs, key, lo, hi);
    var ks := GroupKeys(gs);
    DistinctCardinality(ks);
    var present := set x | x in xs && lo <= key(x) <= hi :: key(x);
    forall k | k in present ensures k in ks {
      var x :| x in xs && lo <= key(x) <= hi && key(x) == k;
      var j :| 0 <= j < |xs| && xs[j] == x;
      var i := GroupByComplete(xs, key, lo, hi, j);
      assert ks[i] == k;
    }
    forall k | k in ks ensures k in present {
      var i :| 0 <= i < |ks| && ks[i] == k;
      GroupRow(xs, key, lo, hi, i);
    }
    assert (set k | k in ks) == present;
  }

  /** The first row of a group is a row of the table with the group's key. */
  lemma GroupRow<T>(xs: seq<T>, key: T -> int, lo: int, hi: int, i: int)
    requires 0 <= i < |GroupBy(xs, key, lo, hi)|
    ensures var g := GroupBy(xs, key, lo, hi)[i];
      g.rows[0] in xs && key(g.rows[0]) == g.key && lo <= g.key <= hi
  {
  }

  /** When every key lies in lo .. hi, there is one group per distinct key. */
  lemma GroupCountAll<T>(xs: seq<T>, key: T -> int, lo: int, hi: int)
    requires forall i :: 0 <= i < |xs| ==> lo <= key(xs[i]) <= hi
    ensures |GroupBy(xs, key, lo, hi)| == |Image(xs, key)|
  {
    GroupCount(xs, key, lo, hi);
    assert (set x | x in xs && lo <= key(x) <= hi :: key(x)) == Image(xs, key);
  }

  /** The keys of s without repetitions, in order of first appearance. */
  function Distinct<K(==)>(s: seq<K>): (r: seq<K>)
    ensures NoDuplicates(r)
    ensures forall i :: 0 <= i < |r| ==> r[i] in s
    ensures forall i :: 0 <= i < |s| ==> s[i] in r
  {
    if s == [] then []
    else
      var r := Distinct(s[..|s| - 1]);
      var last := s[|s| - 1];
      assert s == s[..|s| - 1] + [last];
      if last in r then r else r + [last]
  }

  predicate SortedBy<T>(xs: seq<T>, key: T -> int) {
    forall i, j :: 0 <= i < j < |xs| ==> key(xs[i]) <= key(xs[j])
  }

  predicate KeysDistinct<T, K(==)>(xs: seq<T>, key: T -> K) {
    forall i, j :: 0 <= i < j < |xs| ==> key(xs[i]) != key(xs[j])
  }

  /** Insert x before the first element whose key is not smaller. */
  function Insert<T>(x: T, s: seq<T>, key: T -> int): (r: seq<T>)
    requires SortedBy(s, key)
    ensures SortedBy(r, key)
    ensures |r| == |s| + 1
    ensures forall i :: 0 <= i < |r| ==> r[i] == x || r[i] in s
    ensures x in r && forall i :: 0 <= i < |s| ==> s[i] in r
  {
    if s == [] then [x]
    else if key(x) <= key(s[0]) then [x] + s
    else [s[0]] + Insert(x, s[1..], key)
  }

  lemma {:induction false} InsertPermutes<T>(x: T, s: seq<T>, key: T -> int)
    requires SortedBy(s, key)
    ensures multiset(Insert(x, s, key)) == multiset(s) + multiset{x}
  {
    if s != [] && key(x) > key(s[0]) {
      InsertPermutes(x, s[1..], key);
      assert s == [s[0]] + s[1..];
    }
  }

  /** Inserting a row whose key no row of s has keeps the keys pairwise different. */
  lemma {:induction false} InsertKeepsKeysDistinct<T, K>(x: T, s: seq<T>, sortKey: T -> int, key: T -> K)
    requires SortedBy(s, sortKey) && KeysDistinct(s, key)
    requires forall y :: y in s ==> key(y) != key(x)
    ensures KeysDistinct(Insert(x, s, sortKey), key)
  {
    if s != [] && sortKey(x) > sortKey(s[0]) {
      InsertKeepsKeysDistinct(x, s[1..], sortKey, key);
      var r := Insert(x, s, sortKey);
      forall i, j | 0 <= i < j < |r| ensures key(r[i]) != key(r[j]) {
        if i == 0 {
          assert r[j] in Insert(x, s[1..], sortKey);
          assert r[j] == x || r[j] in s[1..];
          if r[j] != x {
            var k :| 0 <= k < |s[1..]| && s[1..][k] == r[j];
            assert s[k + 1] == r[j];
          }
        }
      }
    }
  }

  /** Stable insertion sort by an integer key, in ascending key order. */
  function SortBy<T>(xs: seq<T>, key: T -> int): (r: seq<T>)
    ensures SortedBy(r, key)
    ensures |r| == |xs|
    ensures forall i :: 0 <= i < |r| ==> r[i] in xs
    ensures forall i :: 0 <= i < |xs| ==> xs[i] in r
  {
    if xs == [] then [] else Insert(xs[0], SortBy(xs[1..], key), key)
  }

  /** Sorting only reorders: the result is a permutation of the input. */
  lemma {:induction false} SortByPermutes<T>(xs: seq<T>, key: T -> int)
    ensures multiset(SortBy(xs, key)) == multiset(xs)
  {
    if xs != [] {
      SortByPermutes(xs[1..], key);
      InsertPermutes(xs[0], SortBy(xs[1..], key), key);
      assert xs == [xs[0]] + xs[1..];
    }
  }

  /** Sorting rows whose keys are pairwise different leaves their keys pairwise
      different. */
  lemma {:induction false} SortByKeepsKeysDistinct<T, K>(xs: seq<T>, sortKey: T -> int, key: T -> K)
    requires KeysDistinct(xs, key)
    ensures KeysDistinct(SortBy(xs, sortKey), key)
  {
    if xs != [] {
      SortByKeepsKeysDistinct(xs[1..], sortKey, key);
      forall y | y in SortBy(xs[1..], sortKey) ensures key(y) != key(xs[0]) {
        var k :| 0 <= k < |xs[1..]| && xs[1..][k] == y;
        assert xs[k + 1] == y;
      }
      InsertKeepsKeysDistinct(xs[0], SortBy(xs[1..], sortKey), sortKey, key);
    }
  }

  /** Sorting rows whose sort keys are pairwise different orders them strictly. */
  lemma SortByStrict<T>(xs: seq<T>, key: T -> int)
    requires KeysDistinct(xs, key)
    ensures forall i, j :: 0 <= i < j < |xs| ==> key(SortBy(xs, key)[i]) < key(SortBy(xs, key)[j])
  {
    SortByKeepsKeysDistinct(xs, key, key);
  }

  /** Selecting by one key and then by another is selecting by a third key that
      holds of a row exactly when both do. */
  lemma {:induction false} SelectSelect<T, J, K, L>(xs: seq<T>, k1: T -> J, a: J, k2: T -> K, b: K, k3: T -> L, c: L)
    requires forall i :: 0 <= i < |xs| ==> (k1(xs[i]) == a && k2(xs[i]) == b <==> k3(xs[i]) == c)
    ensures Select(Select(xs, k1, a), k2, b) == Select(xs, k3, c)
  {
    if xs != [] {
      SelectSelect(xs[1..], k1, a, k2, b, k3, c);
      assert k3(xs[0]) == c <==> k1(xs[0]) == a && k2(xs[0]) == b;
      var rest := Select(xs[1..], k1, a);
      assert Select(xs, k3, c) == (if k3(xs[0]) == c then [xs[0]] else []) + Select(xs[1..], k3, c);
      if k1(xs[0]) == a {
        assert Select(xs, k1, a) == [xs[0]] + rest;
        SelectCons(xs[0], rest, k2, b);
      } else {
        assert Select(xs, k1, a) == rest;
      }
    }
  }

  lemma SelectCons<T, K>(x: T, xs: seq<T>, key: T -> K, k: K)
    ensures Select([x] + xs, key, k) == (if key(x) == k then [x] else []) + Select(xs, key, k)
  {
    assert ([x] + xs)[1..] == xs;
  }
}
