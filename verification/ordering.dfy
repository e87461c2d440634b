/**
 * Strict total orders, ascending sequences and insertion into them.
 *
 * pandas' `groupby` visits group keys in ascending order; the keys the
 * analyser groups by are strings (compared code point by code point, as
 * Python compares `str`), port numbers and calendar values. Every order is
 * passed around as a function value and is required to be a strict total
 * order.
 */
module Ordering {

  ghost predicate StrictTotal<K(!new)>(lt: (K, K) -> bool) {
    && (forall a :: !lt(a, a))
    && (forall a, b, c :: lt(a, b) && lt(b, c) ==> lt(a, c))
    && (forall a, b :: a != b ==> lt(a, b) || lt(b, a))
  }

  /** Strictly increasing under `lt` (so in particular free of duplicates). */
  ghost predicate Ascending<K>(s: seq<K>, lt: (K, K) -> bool) {
    forall i, j :: 0 <= i < j < |s| ==> lt(s[i], s[j])
  }

  /** Strictly decreasing under `lt`. */
  ghost predicate Descending<K>(s: seq<K>, lt: (K, K) -> bool) {
    forall i, j :: 0 <= i < j < |s| ==> lt(s[j], s[i])
  }

  ghost predicate Distinct<K>(s: seq<K>) {
    forall i, j :: 0 <= i < j < |s| ==> s[i] != s[j]
  }

  lemma AscendingDistinct<K(!new)>(s: seq<K>, lt: (K, K) -> bool)
    requires StrictTotal(lt) && Ascending(s, lt)
    ensures Distinct(s)
  {
    forall i, j | 0 <= i < j < |s|
      ensures s[i] != s[j]
    {
      assert lt(s[i], s[j]);
    }
  }

  lemma DescendingDistinct<K(!new)>(s: seq<K>, lt: (K, K) -> bool)
    requires StrictTotal(lt) && Descending(s, lt)
    ensures Distinct(s)
  {
    forall i, j | 0 <= i < j < |s|
      ensures s[i] != s[j]
    {
      assert lt(s[j], s[i]);
    }
  }

  /** Inserts a new element into an ascending sequence at its place. */
  function Insert<K(==,!new)>(x: K, s: seq<K>, lt: (K, K) -> bool): (r: seq<K>)
    requires StrictTotal(lt) && Ascending(s, lt) && x !in s
    ensures Ascending(r, lt)
    ensures |r| == |s| + 1
    ensures forall y :: y in r <==> y == x || y in s
  {
    if |s| == 0 then
      [x]
    else if lt(x, s[0]) then
      assert forall j :: 0 <= j < |s| ==> lt(x, s[j]) by {
        forall j | 0 < j < |s| ensures lt(x, s[j]) {
          assert lt(s[0], s[j]);
        }
      }
      [x] + s
    else
      assert lt(s[0], x);
      var rest := Insert(x, s[1..], lt);
      assert forall y :: y in s[1..] ==> lt(s[0], y);
      [s[0]] + rest
  }

  function Reverse<K>(s: seq<K>): (r: seq<K>)
    ensures |r| == |s|
    ensures forall i :: 0 <= i < |s| ==> r[i] == s[|s| - 1 - i]
  {
    if |s| == 0 then [] else Reverse(s[1..]) + [s[0]]
  }

  lemma ReverseAscending<K>(s: seq<K>, lt: (K, K) -> bool)
    requires Ascending(s, lt)
    ensures Descending(Reverse(s), lt)
    ensures forall y :: y in Reverse(s) <==> y in s
  {
    var r := Reverse(s);
    forall i, j | 0 <= i < j < |r|
      ensures lt(r[j], r[i])
    {
      assert r[j] == s[|s| - 1 - j] && r[i] == s[|s| - 1 - i];
    }
    forall y | y in s
      ensures y in r
    {
      var i :| 0 <= i < |s| && s[i] == y;
      assert r[|s| - 1 - i] == y;
    }
  }

  // ---- the concrete orders used as group-key orders ----

  predicate NatLt(a: nat, b: nat) { a < b }

  /** Python's `<` on `str`: lexicographic by code point, a proper prefix first. */
  predicate StrLt(a: string, b: string) {
    if |a| == 0 then |b| > 0
    else if |b| == 0 then false
    else if a[0] != b[0] then a[0] < b[0]
    else StrLt(a[1..], b[1..])
  }

  lemma NatLtTotal()
    ensures StrictTotal(NatLt)
  {
  }

  lemma {:induction false} StrLtIrreflexive(a: string)
    ensures !StrLt(a, a)
  {
    if |a| > 0 {
      StrLtIrreflexive(a[1..]);
    }
  }

  lemma {:induction false} StrLtTransitive(a: string, b: string, c: string)
    requires StrLt(a, b) && StrLt(b, c)
    ensures StrLt(a, c)
  {
    if |a| > 0 && a[0] == b[0] && b[0] == c[0] {
      StrLtTransitive(a[1..], b[1..], c[1..]);
    }
  }

  lemma {:induction false} StrLtConnected(a: string, b: string)
    requires a != b
    ensures StrLt(a, b) || StrLt(b, a)
  {
    if |a| > 0 && |b| > 0 && a[0] == b[0] {
      assert a == [a[0]] + a[1..] && b == [b[0]] + b[1..];
      StrLtConnected(a[1..], b[1..]);
    }
  }

  lemma StrLtTotal()
    ensures StrictTotal(StrLt)
  {
    forall a: string
      ensures !StrLt(a, a)
    {
      StrLtIrreflexive(a);
    }
    forall a: string, b: string, c: string | StrLt(a, b) && StrLt(b, c)
      ensures StrLt(a, c)
    {
      StrLtTransitive(a, b, c);
    }
    forall a: string, b: string | a != b
      ensures StrLt(a, b) || StrLt(b, a)
    {
      StrLtConnected(a, b);
    }
  }
}
