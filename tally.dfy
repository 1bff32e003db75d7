/** GROUP BY key with COUNT, ordered by key: the shape of
    `values(key).annotate(count=Count('id')).order_by(key)`.
    A tally is a list of (key, count) entries kept sorted by a strict order. */
module Tally {
  import opened Lex

  /** Number of occurrences of `k` in `xs`. */
  function Occ<K(==)>(xs: seq<K>, k: K): nat
  {
    if xs == [] then 0 else (if xs[0] == k then 1 else 0) + Occ(xs[1..], k)
  }

  /** The set of values occurring in `xs`. */
  function Elems<K>(xs: seq<K>): set<K>
  {
    if xs == [] then {} else {xs[0]} + Elems(xs[1..])
  }

  /** The keys of a tally. */
  function Keys<K>(t: seq<(K, nat)>): set<K>
  {
    if t == [] then {} else {t[0].0} + Keys(t[1..])
  }

  /** Sum of all counts of a tally. */
  function Total<K>(t: seq<(K, nat)>): nat
  {
    if t == [] then 0 else t[0].1 + Total(t[1..])
  }

  /** Sum of the counts recorded under key `k`. */
  function CountIn<K(==)>(t: seq<(K, nat)>, k: K): nat
  {
    if t == [] then 0 else (if t[0].0 == k then t[0].1 else 0) + CountIn(t[1..], k)
  }

  ghost predicate KeysSorted<K>(t: seq<(K, nat)>, lt: (K, K) -> bool)
  {
    forall i, j :: 0 <= i < j < |t| ==> lt(t[i].0, t[j].0)
  }

  ghost predicate CountsPositive<K>(t: seq<(K, nat)>)
  {
    forall i :: 0 <= i < |t| ==> t[i].1 > 0
  }

  /** Record one more occurrence of `k`, keeping the entries in key order. */
  function Bump<K(==,!new)>(t: seq<(K, nat)>, k: K, lt: (K, K) -> bool): (r: seq<(K, nat)>)
    ensures Total(r) == Total(t) + 1
    ensures Keys(r) == Keys(t) + {k}
    ensures forall j :: CountIn(r, j) == CountIn(t, j) + (if j == k then 1 else 0)
  {
    if t == [] then [(k, 1)]
    else if t[0].0 == k then [(k, t[0].1 + 1)] + t[1..]
    else if lt(k, t[0].0) then [(k, 1)] + t
    else [t[0]] + Bump(t[1..], k, lt)
  }

  /** The tally of `xs`: one entry per distinct value with its number of occurrences. */
  function Count<K(==,!new)>(xs: seq<K>, lt: (K, K) -> bool): (r: seq<(K, nat)>)
    ensures Total(r) == |xs|
    ensures Keys(r) == Elems(xs)
    ensures forall j :: CountIn(r, j) == Occ(xs, j)
  {
    if xs == [] then [] else Bump(Count(xs[1..], lt), xs[0], lt)
  }

  lemma {:induction false} ElemsIsMembership<K>(xs: seq<K>, x: K)
    ensures x in Elems(xs) <==> x in xs
  {
    if xs != [] {
      ElemsIsMembership(xs[1..], x);
      assert xs == [xs[0]] + xs[1..];
    }
  }

  lemma {:induction false} BumpKeepsOrder<K(!new)>(t: seq<(K, nat)>, k: K, lt: (K, K) -> bool)
    requires StrictTotalOrder(lt)
    requires KeysSorted(t, lt) && CountsPositive(t)
    ensures KeysSorted(Bump(t, k, lt), lt) && CountsPositive(Bump(t, k, lt))
  {
    if t != [] && t[0].0 != k && !lt(k, t[0].0) {
      var rest := Bump(t[1..], k, lt);
      BumpKeepsOrder(t[1..], k, lt);
      assert lt(t[0].0, k);
      forall j | 0 <= j < |rest| ensures lt(t[0].0, rest[j].0) {
        assert rest[j].0 in Keys(rest) by { KeyAt(rest, j); }
        if rest[j].0 != k { KeyBelow(t, rest[j].0, lt); }
      }
    }
  }

  lemma {:induction false} KeyAt<K>(t: seq<(K, nat)>, j: nat)
    requires j < |t|
    ensures t[j].0 in Keys(t)
  {
    if j > 0 { KeyAt(t[1..], j - 1); }
  }

  /** In a sorted tally every key after the first one is larger than the first. */
  lemma {:induction false} KeyBelow<K(!new)>(t: seq<(K, nat)>, k: K, lt: (K, K) -> bool)
    requires StrictTotalOrder(lt) && KeysSorted(t, lt) && t != []
    requires k in Keys(t[1..])
    ensures lt(t[0].0, k)
  {
    var j := KeyIndex(t[1..], k);
    assert t[1..][j] == t[j + 1];
  }

  /** Where a key of a tally sits. */
  lemma {:induction false} KeyIndex<K>(t: seq<(K, nat)>, k: K) returns (j: nat)
    requires k in Keys(t)
    ensures j < |t| && t[j].0 == k
  {
    if t[0].0 != k {
      j := KeyIndex(t[1..], k);
      j := j + 1;
    } else {
      j := 0;
    }
  }

  /** In a sorted tally the entry of a key holds all of that key's count. */
  lemma {:induction false} SortedEntryCount<K(!new)>(t: seq<(K, nat)>, i: nat, lt: (K, K) -> bool)
    requires StrictTotalOrder(lt) && KeysSorted(t, lt) && i < |t|
    ensures CountIn(t, t[i].0) == t[i].1
  {
    if i == 0 {
      NotInCount(t[1..], t[0].0, lt);
    } else {
      assert t[i].0 != t[0].0 by { assert lt(t[0].0, t[i].0); }
      assert t[1..][i - 1] == t[i];
      SortedEntryCount(t[1..], i - 1, lt);
    }
  }

  lemma {:induction false} NotInCount<K(!new)>(t: seq<(K, nat)>, k: K, lt: (K, K) -> bool)
    requires StrictTotalOrder(lt) && KeysSorted(t, lt)
    requires forall i :: 0 <= i < |t| ==> lt(k, t[i].0)
    ensures CountIn(t, k) == 0
  {
    if t != [] {
      assert lt(k, t[0].0);
      NotInCount(t[1..], k, lt);
    }
  }

  /** A tally whose keys are sorted has as many entries as it has keys. */
  lemma {:induction false} SortedKeysCard<K(!new)>(t: seq<(K, nat)>, lt: (K, K) -> bool)
    requires StrictTotalOrder(lt) && KeysSorted(t, lt)
    ensures |Keys(t)| == |t|
  {
    if t != [] {
      SortedKeysCard(t[1..], lt);
      forall k | k in Keys(t[1..]) ensures lt(t[0].0, k) { KeyBelow(t, k, lt); }
      assert t[0].0 !in Keys(t[1..]);
    }
  }

  /** The tally of `xs` lists every distinct value of `xs` once, in increasing
      order, each with its number of occurrences, and no empty group. */
  lemma CountIsGroupBy<K(!new)>(xs: seq<K>, lt: (K, K) -> bool)
    requires StrictTotalOrder(lt)
    ensures KeysSorted(Count(xs, lt), lt) && CountsPositive(Count(xs, lt))
    ensures forall i :: 0 <= i < |Count(xs, lt)| ==> Count(xs, lt)[i].1 == Occ(xs, Count(xs, lt)[i].0)
    ensures forall x :: x in xs <==> x in Keys(Count(xs, lt))
    ensures |Count(xs, lt)| == |Elems(xs)|
  {
    CountSorted(xs, lt);
    var t := Count(xs, lt);
    forall i | 0 <= i < |t| ensures t[i].1 == Occ(xs, t[i].0) {
      SortedEntryCount(t, i, lt);
    }
    forall x ensures x in xs <==> x in Keys(t) { ElemsIsMembership(xs, x); }
    SortedKeysCard(t, lt);
  }

  lemma {:induction false} CountSorted<K(!new)>(xs: seq<K>, lt: (K, K) -> bool)
    requires StrictTotalOrder(lt)
    ensures KeysSorted(Count(xs, lt), lt) && CountsPositive(Count(xs, lt))
  {
    if xs != [] {
      CountSorted(xs[1..], lt);
      BumpKeepsOrder(Count(xs[1..], lt), xs[0], lt);
    }
  }
}
