/**
 * Grouping and counting: the model of pandas' `groupby(key)` (the rows of
 * each group in their original order, groups visited in ascending key
 * order), of `value_counts()` (one count per value that occurs), of
 * `unique()` (each value once, in order of first appearance) and of
 * `nunique()`, together with the count-conservation facts every report
 * relies on.
 */
module Tally {
  import opened Ordering

  /** The rows of `xs` whose key is `k`, in their original order (one `groupby` group). */
  function Select<T, K(==)>(xs: seq<T>, f: T -> K, k: K): (r: seq<T>)
    ensures |r| <= |xs|
    ensures forall x :: x in r ==> x in xs && f(x) == k
    ensures forall x :: x in xs && f(x) == k ==> x in r
  {
    if |xs| == 0 then []
    else (if f(xs[0]) == k then [xs[0]] else []) + Select(xs[1..], f, k)
  }

  /** How many rows of `xs` have key `k`. */
  function Count<T, K(==)>(xs: seq<T>, f: T -> K, k: K): nat
  {
    |Select(xs, f, k)|
  }

  /** The count over a non-empty sequence: its first row, then the rest. */
  lemma CountCons<T, K>(xs: seq<T>, f: T -> K, k: K)
    requires |xs| > 0
    ensures Count(xs, f, k) == (if f(xs[0]) == k then 1 else 0) + Count(xs[1..], f, k)
  {
  }

  lemma CountPositive<T, K>(xs: seq<T>, f: T -> K, k: K)
    ensures Count(xs, f, k) > 0 <==> exists x :: x in xs && f(x) == k
  {
    var s := Select(xs, f, k);
    if |s| > 0 {
      assert s[0] in s;
    }
  }

  /** The distinct keys occurring in `xs`, ascending: the order in which `groupby` visits its groups. */
  function KeysOf<T, K(==,!new)>(xs: seq<T>, f: T -> K, lt: (K, K) -> bool): (r: seq<K>)
    requires StrictTotal(lt)
    ensures Ascending(r, lt)
    ensures forall k :: k in r <==> Count(xs, f, k) > 0
    ensures |r| <= |xs|
  {
    if |xs| == 0 then
      []
    else
      var r0 := KeysOf(xs[1..], f, lt);
      var r := if f(xs[0]) in r0 then r0 else Insert(f(xs[0]), r0, lt);
      assert xs == [xs[0]] + xs[1..];
      forall k
        ensures k in r <==> Count(xs, f, k) > 0
      {
        CountPositive(xs, f, k);
        CountPositive(xs[1..], f, k);
      }
      r
  }

  /** The keys of `xs` ordered by group size, largest first, ties by ascending key. */
  predicate MoreFrequent<T, K(==)>(xs: seq<T>, f: T -> K, lt: (K, K) -> bool, a: K, b: K) {
    Count(xs, f, a) > Count(xs, f, b) || (Count(xs, f, a) == Count(xs, f, b) && lt(a, b))
  }

  /** Largest group first, ties by `lt`. */
  ghost predicate Ranked<T, K>(xs: seq<T>, f: T -> K, lt: (K, K) -> bool, s: seq<K>) {
    forall i, j :: 0 <= i < j < |s| ==> MoreFrequent(xs, f, lt, s[i], s[j])
  }

  lemma RankedDistinct<T, K(!new)>(xs: seq<T>, f: T -> K, lt: (K, K) -> bool, s: seq<K>)
    requires StrictTotal(lt) && Ranked(xs, f, lt, s)
    ensures Distinct(s)
  {
    forall i, j | 0 <= i < j < |s|
      ensures s[i] != s[j]
    {
      assert MoreFrequent(xs, f, lt, s[i], s[j]);
    }
  }

  lemma MoreFrequentTrans<T, K(!new)>(xs: seq<T>, f: T -> K, lt: (K, K) -> bool, a: K, b: K, c: K)
    requires StrictTotal(lt) && MoreFrequent(xs, f, lt, a, b) && MoreFrequent(xs, f, lt, b, c)
    ensures MoreFrequent(xs, f, lt, a, c)
  {
  }

  /** A key that precedes every key of a ranking can head it. */
  lemma RankedCons<T, K>(xs: seq<T>, f: T -> K, lt: (K, K) -> bool, k: K, s: seq<K>)
    requires Ranked(xs, f, lt, s) && forall y :: y in s ==> MoreFrequent(xs, f, lt, k, y)
    ensures Ranked(xs, f, lt, [k] + s)
  {
    var r := [k] + s;
    forall i, j | 0 <= i < j < |r|
      ensures MoreFrequent(xs, f, lt, r[i], r[j])
    {
      assert r[j] == s[j - 1];
      if i > 0 {
        assert r[i] == s[i - 1];
      } else {
        assert s[j - 1] in s;
      }
    }
  }

  /** Inserts a new key into a ranking at its place. */
  function RankInsert<T, K(==,!new)>(xs: seq<T>, f: T -> K, lt: (K, K) -> bool, k: K, s: seq<K>): (r: seq<K>)
    requires StrictTotal(lt) && Ranked(xs, f, lt, s) && k !in s
    ensures Ranked(xs, f, lt, r)
    ensures |r| == |s| + 1
    ensures forall y :: y in r <==> y == k || y in s
  {
    if |s| == 0 then
      [k]
    else if MoreFrequent(xs, f, lt, k, s[0]) then
      assert forall y :: y in s ==> MoreFrequent(xs, f, lt, k, y) by {
        forall y | y in s ensures MoreFrequent(xs, f, lt, k, y) {
          var j :| 0 <= j < |s| && s[j] == y;
          if j > 0 {
            MoreFrequentTrans(xs, f, lt, k, s[0], s[j]);
          }
        }
      }
      RankedCons(xs, f, lt, k, s);
      [k] + s
    else
      var rest := RankInsert(xs, f, lt, k, s[1..]);
      assert forall y :: y in rest ==> MoreFrequent(xs, f, lt, s[0], y) by {
        forall y | y in rest ensures MoreFrequent(xs, f, lt, s[0], y) {
          if y != k {
            var j :| 0 <= j < |s[1..]| && s[1..][j] == y;
            assert s[j + 1] == y;
          }
        }
      }
      RankedCons(xs, f, lt, s[0], rest);
      assert s == [s[0]] + s[1..];
      [s[0]] + rest
  }

  /** The keys of `ks`, each once, ranked. */
  function RankAll<T, K(==,!new)>(xs: seq<T>, f: T -> K, lt: (K, K) -> bool, ks: seq<K>): (r: seq<K>)
    requires StrictTotal(lt)
    ensures Ranked(xs, f, lt, r)
    ensures forall y :: y in r <==> y in ks
  {
    if |ks| == 0 then
      []
    else
      var rest := RankAll(xs, f, lt, ks[1..]);
      if ks[0] in rest then rest else RankInsert(xs, f, lt, ks[0], rest)
  }

  /**
   * The group keys of `xs` after Python's stable `sort(key=count, reverse=True)`
   * applied to groups listed in ascending key order: largest group first, and
   * groups of equal size keep ascending key order.
   */
  function RankByCount<T, K(==,!new)>(xs: seq<T>, f: T -> K, lt: (K, K) -> bool): (r: seq<K>)
    requires StrictTotal(lt)
    ensures forall i, j :: 0 <= i < j < |r| ==>
      Count(xs, f, r[i]) > Count(xs, f, r[j]) || (Count(xs, f, r[i]) == Count(xs, f, r[j]) && lt(r[i], r[j]))
    ensures forall k :: k in r <==> Count(xs, f, k) > 0
    ensures Distinct(r)
  {
    var r := RankAll(xs, f, lt, KeysOf(xs, f, lt));
    RankedDistinct(xs, f, lt, r);
    r
  }

  /** The group keys of `xs` in descending order (a sort on a unique label, reversed). */
  function KeysDescending<T, K(==,!new)>(xs: seq<T>, f: T -> K, lt: (K, K) -> bool): (r: seq<K>)
    requires StrictTotal(lt)
    ensures Descending(r, lt) && Distinct(r)
    ensures forall k :: k in r <==> Count(xs, f, k) > 0
  {
    var ks := KeysOf(xs, f, lt);
    ReverseAscending(ks, lt);
    DescendingDistinct(Reverse(ks), lt);
    Reverse(ks)
  }

  /** Python's `series.nunique()`. */
  function DistinctCount<T, K(==,!new)>(xs: seq<T>, f: T -> K, lt: (K, K) -> bool): (n: nat)
    requires StrictTotal(lt)
    ensures n <= |xs|
    ensures |xs| > 0 ==> n >= 1
  {
    var ks := KeysOf(xs, f, lt);
    if |xs| > 0 then assert f(xs[0]) in ks; |ks| else |ks|
  }

  lemma {:induction false} DistinctCard<K>(s: seq<K>)
    requires Distinct(s)
    ensures |set x | x in s| == |s|
  {
    if |s| > 0 {
      DistinctCard(s[1..]);
      assert (set x | x in s) == {s[0]} + (set x | x in s[1..]);
      assert s[0] !in s[1..];
    }
  }

  /** `nunique()` is the number of different keys, however they are listed. */
  lemma DistinctCountOf<T, K(!new)>(xs: seq<T>, f: T -> K, lt: (K, K) -> bool, s: seq<K>)
    requires StrictTotal(lt)
    requires Distinct(s) && forall k :: k in s <==> Count(xs, f, k) > 0
    ensures DistinctCount(xs, f, lt) == |s|
  {
    var ks := KeysOf(xs, f, lt);
    AscendingDistinct(ks, lt);
    DistinctCard(ks);
    DistinctCard(s);
    assert (set x | x in ks) == (set x | x in s);
  }

  // ---- conservation of counts ----

  function SumCounts<T, K(==)>(keys: seq<K>, xs: seq<T>, f: T -> K): nat
  {
    if |keys| == 0 then 0 else Count(xs, f, keys[0]) + SumCounts(keys[1..], xs, f)
  }

  /** How often `v` occurs in `keys`. */
  function Hits<K(==)>(keys: seq<K>, v: K): nat
  {
    if |keys| == 0 then 0 else (if keys[0] == v then 1 else 0) + Hits(keys[1..], v)
  }

  lemma {:induction false} HitsOnce<K>(keys: seq<K>, v: K)
    requires Distinct(keys) && v in keys
    ensures Hits(keys, v) == 1
  {
    if keys[0] == v {
      HitsNone(keys[1..], v);
    } else {
      HitsOnce(keys[1..], v);
    }
  }

  lemma {:induction false} HitsNone<K>(keys: seq<K>, v: K)
    requires v !in keys
    ensures Hits(keys, v) == 0
  {
    if |keys| > 0 {
      HitsNone(keys[1..], v);
    }
  }

  lemma {:induction false} SumCountsEmpty<T, K>(keys: seq<K>, f: T -> K)
    ensures SumCounts(keys, [], f) == 0
  {
    if |keys| > 0 {
      SumCountsEmpty(keys[1..], f);
    }
  }

  lemma {:induction false} SumCountsCons<T, K>(keys: seq<K>, xs: seq<T>, f: T -> K)
    requires |xs| > 0
    ensures SumCounts(keys, xs, f) == Hits(keys, f(xs[0])) + SumCounts(keys, xs[1..], f)
  {
    if |keys| > 0 {
      SumCountsCons(keys[1..], xs, f);
    }
  }

  /**
   * Groups partition the rows: when `keys` lists every key that occurs, each
   * once, the group sizes add up to the number of rows.
   */
  lemma {:induction false} CountsPartition<T, K>(keys: seq<K>, xs: seq<T>, f: T -> K)
    requires Distinct(keys)
    requires forall x :: x in xs ==> f(x) in keys
    ensures SumCounts(keys, xs, f) == |xs|
  {
    if |xs| == 0 {
      SumCountsEmpty(keys, f);
    } else {
      SumCountsCons(keys, xs, f);
      HitsOnce(keys, f(xs[0]));
      CountsPartition(keys, xs[1..], f);
    }
  }

  // ---- value_counts ----

  /** One entry of a `value_counts()` dictionary. */
  datatype Bin<K> = Bin(key: K, count: nat)

  function BinsFor<T, K(==)>(keys: seq<K>, xs: seq<T>, f: T -> K): (r: seq<Bin<K>>)
    ensures |r| == |keys|
    ensures forall i :: 0 <= i < |r| ==> r[i].key == keys[i] && r[i].count == Count(xs, f, keys[i])
  {
    if |keys| == 0 then [] else [Bin(keys[0], Count(xs, f, keys[0]))] + BinsFor(keys[1..], xs, f)
  }

  function BinTotal<K>(bins: seq<Bin<K>>): nat
  {
    if |bins| == 0 then 0 else bins[0].count + BinTotal(bins[1..])
  }

  lemma {:induction false} BinTotalOfBinsFor<T, K>(keys: seq<K>, xs: seq<T>, f: T -> K)
    ensures BinTotal(BinsFor(keys, xs, f)) == SumCounts(keys, xs, f)
  {
    if |keys| > 0 {
      assert BinsFor(keys, xs, f)[1..] == BinsFor(keys[1..], xs, f);
      BinTotalOfBinsFor(keys[1..], xs, f);
    }
  }

  /**
   * `value_counts()` of the key `f` over `xs`: one bin per occurring key, in
   * ascending key order, holding that key's number of rows; the counts add up
   * to the number of rows.
   */
  function Breakdown<T, K(==,!new)>(xs: seq<T>, f: T -> K, lt: (K, K) -> bool): (r: seq<Bin<K>>)
    requires StrictTotal(lt)
    ensures forall i :: 0 <= i < |r| ==> r[i].count == Count(xs, f, r[i].key) && r[i].count >= 1
    ensures forall i, j :: 0 <= i < j < |r| ==> lt(r[i].key, r[j].key)
    ensures BinTotal(r) == |xs|
  {
    var keys := KeysOf(xs, f, lt);
    AscendingDistinct(keys, lt);
    forall x | x in xs
      ensures f(x) in keys
    {
      CountPositive(xs, f, f(x));
    }
    CountsPartition(keys, xs, f);
    BinTotalOfBinsFor(keys, xs, f);
    assert forall i :: 0 <= i < |keys| ==> keys[i] in keys;
    BinsFor(keys, xs, f)
  }

  /** Every key that occurs has its bin. */
  lemma BreakdownCovers<T, K(!new)>(xs: seq<T>, f: T -> K, lt: (K, K) -> bool, x: T)
    requires StrictTotal(lt) && x in xs
    ensures exists i :: 0 <= i < |Breakdown(xs, f, lt)| && Breakdown(xs, f, lt)[i].key == f(x)
  {
    var keys := KeysOf(xs, f, lt);
    CountPositive(xs, f, f(x));
    var i :| 0 <= i < |keys| && keys[i] == f(x);
    assert Breakdown(xs, f, lt)[i].key == f(x);
  }

  // ---- unique ----

  lemma {:induction false} SelectAppend<T, K>(a: seq<T>, b: seq<T>, f: T -> K, k: K)
    ensures Select(a + b, f, k) == Select(a, f, k) + Select(b, f, k)
  {
    if |a| > 0 {
      assert (a + b)[0] == a[0];
      assert (a + b)[1..] == a[1..] + b;
      SelectAppend(a[1..], b, f, k);
    } else {
      assert a + b == b;
    }
  }

  /** The count over a non-empty sequence: all rows but the last, then the last. */
  lemma CountSnoc<T, K>(xs: seq<T>, f: T -> K, k: K)
    requires |xs| > 0
    ensures Count(xs, f, k) == Count(xs[..|xs| - 1], f, k) + (if f(xs[|xs| - 1]) == k then 1 else 0)
  {
    var n := |xs| - 1;
    assert xs == xs[..n] + [xs[n]];
    SelectAppend(xs[..n], [xs[n]], f, k);
  }

  /** Key `a` shows up before key `b`: in front of every row with key `b` there is a row with key `a`. */
  ghost predicate ShowsFirst<T, K>(xs: seq<T>, f: T -> K, a: K, b: K) {
    forall p :: 0 <= p < |xs| && f(xs[p]) == b ==> Count(xs[..p], f, a) > 0
  }

  /** An order of first rows that holds before the last row still holds with it. */
  lemma ShowsFirstExtend<T, K>(xs: seq<T>, f: T -> K, a: K, b: K)
    requires |xs| > 0
    requires ShowsFirst(xs[..|xs| - 1], f, a, b) && Count(xs[..|xs| - 1], f, a) > 0
    ensures ShowsFirst(xs, f, a, b)
  {
    var n := |xs| - 1;
    forall p | 0 <= p < |xs| && f(xs[p]) == b
      ensures Count(xs[..p], f, a) > 0
    {
      if p < n {
        assert xs[..n][p] == xs[p] && xs[..n][..p] == xs[..p];
      } else {
        assert xs[..p] == xs[..n];
      }
    }
  }

  /** A key whose first row is the last row shows up after every key seen before it. */
  lemma ShowsFirstNew<T, K>(xs: seq<T>, f: T -> K, a: K, b: K)
    requires |xs| > 0
    requires Count(xs[..|xs| - 1], f, a) > 0 && Count(xs[..|xs| - 1], f, b) == 0
    ensures ShowsFirst(xs, f, a, b)
  {
    var n := |xs| - 1;
    CountPositive(xs[..n], f, b);
    forall q | 0 <= q < n
      ensures f(xs[q]) != b
    {
      assert xs[..n][q] == xs[q];
    }
    forall p | 0 <= p < |xs| && f(xs[p]) == b
      ensures Count(xs[..p], f, a) > 0
    {
      assert xs[..p] == xs[..n];
    }
  }

  /** `u` with `k` added at the end, unless it is already there. */
  function AddNew<K(==)>(u: seq<K>, k: K): seq<K> {
    if k in u then u else u + [k]
  }

  lemma UniquesStep<T, K>(xs: seq<T>, f: T -> K, u: seq<K>)
    requires |xs| > 0 && Distinct(u)
    requires forall k :: k in u <==> Count(xs[..|xs| - 1], f, k) > 0
    requires forall i, j :: 0 <= i < j < |u| ==> ShowsFirst(xs[..|xs| - 1], f, u[i], u[j])
    ensures Distinct(AddNew(u, f(xs[|xs| - 1])))
    ensures forall k :: k in AddNew(u, f(xs[|xs| - 1])) <==> Count(xs, f, k) > 0
    ensures var r := AddNew(u, f(xs[|xs| - 1])); forall i, j :: 0 <= i < j < |r| ==> ShowsFirst(xs, f, r[i], r[j])
  {
    var n, k := |xs| - 1, f(xs[|xs| - 1]);
    var r := AddNew(u, k);
    forall y
      ensures Count(xs, f, y) == Count(xs[..n], f, y) + (if k == y then 1 else 0)
    {
      CountSnoc(xs, f, y);
    }
    forall i, j | 0 <= i < j < |r|
      ensures ShowsFirst(xs, f, r[i], r[j])
    {
      assert u[i] in u;
      if j < |u| {
        ShowsFirstExtend(xs, f, u[i], u[j]);
      } else {
        ShowsFirstNew(xs, f, u[i], k);
      }
    }
  }

  /**
   * `unique()` of the key `f` over `xs`: each key that occurs, once, in the
   * order in which the keys first show up.
   */
  function Uniques<T, K(==,!new)>(xs: seq<T>, f: T -> K): (r: seq<K>)
    ensures Distinct(r)
    ensures forall k :: k in r <==> Count(xs, f, k) > 0
    ensures forall i, j :: 0 <= i < j < |r| ==> ShowsFirst(xs, f, r[i], r[j])
    decreases |xs|
  {
    if xs == [] then []
    else
      var u := Uniques(xs[..|xs| - 1], f);
      UniquesStep(xs, f, u);
      AddNew(u, f(xs[|xs| - 1]))
  }

  /**
   * A dictionary filled by visiting `unique()` and counting each key's rows:
   * one positive bin per occurring key in first-appearance order, the counts
   * adding up to the number of rows.
   */
  function FirstSeenBins<T, K(==,!new)>(xs: seq<T>, f: T -> K): (r: seq<Bin<K>>)
    ensures forall i :: 0 <= i < |r| ==> r[i].count == Count(xs, f, r[i].key) > 0
    ensures forall i, j :: 0 <= i < j < |r| ==> r[i].key != r[j].key && ShowsFirst(xs, f, r[i].key, r[j].key)
    ensures forall k :: HasBin(r, k) <==> Count(xs, f, k) > 0
    ensures BinTotal(r) == |xs|
  {
    var keys := Uniques(xs, f);
    BinsOfKeys(keys, xs, f);
    BinsFor(keys, xs, f)
  }

  /** Some bin of `r` is the bin of `k`. */
  predicate HasBin<K(==)>(r: seq<Bin<K>>, k: K) {
    exists i :: 0 <= i < |r| && r[i].key == k
  }

  /** Bins for keys listing each occurring key once: a bin for exactly the occurring keys, holding every row. */
  lemma BinsOfKeys<T, K(!new)>(keys: seq<K>, xs: seq<T>, f: T -> K)
    requires Distinct(keys) && forall k :: k in keys <==> Count(xs, f, k) > 0
    ensures forall i :: 0 <= i < |keys| ==> Count(xs, f, keys[i]) > 0
    ensures forall k :: HasBin(BinsFor(keys, xs, f), k) <==> Count(xs, f, k) > 0
    ensures BinTotal(BinsFor(keys, xs, f)) == |xs|
  {
    var r := BinsFor(keys, xs, f);
    forall x | x in xs
      ensures f(x) in keys
    {
      CountPositive(xs, f, f(x));
    }
    CountsPartition(keys, xs, f);
    BinTotalOfBinsFor(keys, xs, f);
    assert forall i :: 0 <= i < |keys| ==> keys[i] in keys;
    forall k
      ensures HasBin(r, k) <==> k in keys
    {
      if k in keys {
        var i :| 0 <= i < |keys| && keys[i] == k;
        assert r[i].key == k;
      }
    }
  }

  // ---- totals of a report and top-N truncation ----

  /** Entries that follow a list of keys one for one carry exactly those keys. */
  lemma Listed<E, K>(r: seq<E>, key: E -> K, ks: seq<K>, k: K)
    requires |r| == |ks| && forall i :: 0 <= i < |r| ==> key(r[i]) == ks[i]
    ensures (exists i :: 0 <= i < |r| && key(r[i]) == k) <==> k in ks
  {
    if k in ks {
      var i :| 0 <= i < |ks| && ks[i] == k;
      assert key(r[i]) == k;
    }
  }

  function SumNat(s: seq<nat>): nat {
    if |s| == 0 then 0 else s[0] + SumNat(s[1..])
  }

  /** The number `total` gives each entry of a report, in order. */
  function Totals<E>(r: seq<E>, total: E -> nat): (t: seq<nat>)
    ensures |t| == |r| && forall i :: 0 <= i < |r| ==> t[i] == total(r[i])
  {
    seq(|r|, i requires 0 <= i < |r| => total(r[i]))
  }

  /** Adding up one number per key, each the key's group size, is adding up the group sizes. */
  lemma {:induction false} SumOfCounts<T, K>(keys: seq<K>, xs: seq<T>, f: T -> K, totals: seq<nat>)
    requires |totals| == |keys|
    requires forall i :: 0 <= i < |keys| ==> totals[i] == Count(xs, f, keys[i])
    ensures SumNat(totals) == SumCounts(keys, xs, f)
  {
    if |keys| > 0 {
      SumOfCounts(keys[1..], xs, f, totals[1..]);
    }
  }

  /**
   * The groups of any listing of the occurring keys, each listed once, add
   * up to all the rows: a report with one entry per group loses no row.
   */
  lemma GroupTotals<T, K>(keys: seq<K>, xs: seq<T>, f: T -> K, totals: seq<nat>)
    requires Distinct(keys)
    requires forall k :: k in keys <==> Count(xs, f, k) > 0
    requires |totals| == |keys|
    requires forall i :: 0 <= i < |keys| ==> totals[i] == Count(xs, f, keys[i])
    ensures SumNat(totals) == |xs|
  {
    forall x | x in xs
      ensures f(x) in keys
    {
      CountPositive(xs, f, f(x));
      assert Count(xs, f, f(x)) > 0;
    }
    CountsPartition(keys, xs, f);
    SumOfCounts(keys, xs, f, totals);
  }

  /** The first `n` elements of `s`, or all of them when there are fewer (`s[:n]`). */
  function Top<K>(s: seq<K>, n: nat): (r: seq<K>)
    ensures |r| <= n && |r| <= |s|
    ensures |s| <= n ==> r == s
    ensures |r| == n || r == s
    ensures forall i :: 0 <= i < |r| ==> r[i] == s[i]
  {
    if |s| <= n then s else s[..n]
  }

  /**
   * Truncating the ranking keeps the largest groups: a key that occurs but
   * was cut off has no more rows than any key that was kept.
   */
  lemma TopRanked<T, K(!new)>(xs: seq<T>, f: T -> K, lt: (K, K) -> bool, n: nat, k: K)
    requires StrictTotal(lt)
    requires Count(xs, f, k) > 0 && k !in Top(RankByCount(xs, f, lt), n)
    ensures forall j :: 0 <= j < |Top(RankByCount(xs, f, lt), n)| ==>
      Count(xs, f, k) <= Count(xs, f, Top(RankByCount(xs, f, lt), n)[j])
  {
    var ranked := RankByCount(xs, f, lt);
    var top := Top(ranked, n);
    var i :| 0 <= i < |ranked| && ranked[i] == k;
    assert |top| <= i;
  }
}
