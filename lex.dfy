/** Ordering of strings as the database orders text columns: by code point,
    character by character, a proper prefix first. A missing (NULL) value sorts
    before every string, as in an ascending ORDER BY on SQLite. */
module Lex {
  import opened Wrappers

  /** `a` sorts strictly before `b`. */
  predicate StrLess(a: string, b: string)
    decreases |a|
  {
    if |a| == 0 then |b| > 0
    else if |b| == 0 then false
    else if a[0] == b[0] then StrLess(a[1..], b[1..])
    else a[0] < b[0]
  }

  lemma {:induction false} StrLessIrreflexive(a: string)
    ensures !StrLess(a, a)
    decreases |a|
  {
    if |a| > 0 { StrLessIrreflexive(a[1..]); }
  }

  lemma {:induction false} StrLessTransitive(a: string, b: string, c: string)
    requires StrLess(a, b) && StrLess(b, c)
    ensures StrLess(a, c)
    decreases |a|
  {
    if |a| > 0 && |b| > 0 && |c| > 0 && a[0] == b[0] && b[0] == c[0] {
      StrLessTransitive(a[1..], b[1..], c[1..]);
    }
  }

  lemma {:induction false} StrLessTotal(a: string, b: string)
    requires a != b
    ensures StrLess(a, b) || StrLess(b, a)
    decreases |a|
  {
    if |a| > 0 && |b| > 0 && a[0] == b[0] {
      assert a == [a[0]] + a[1..] && b == [b[0]] + b[1..];
      StrLessTotal(a[1..], b[1..]);
    }
  }

  lemma {:induction false} StrLessAsymmetric(a: string, b: string)
    requires StrLess(a, b)
    ensures !StrLess(b, a)
  {
    if StrLess(b, a) {
      StrLessTransitive(a, b, a);
      StrLessIrreflexive(a);
    }
  }

  /** Order of a nullable text column: NULL first, then strings by StrLess. */
  predicate OptLess(a: Option<string>, b: Option<string>)
  {
    match (a, b)
    case (None, Some(_)) => true
    case (Some(x), Some(y)) => StrLess(x, y)
    case _ => false
  }

  /** A strict total order on the values of `K`. */
  ghost predicate StrictTotalOrder<K(!new)>(lt: (K, K) -> bool)
  {
    && (forall a :: !lt(a, a))
    && (forall a, b, c :: lt(a, b) && lt(b, c) ==> lt(a, c))
    && (forall a, b :: a != b ==> lt(a, b) || lt(b, a))
  }

  lemma OptLessIsStrictTotalOrder()
    ensures StrictTotalOrder(OptLess)
  {
    forall a: Option<string> ensures !OptLess(a, a) {
      if a.Some? { StrLessIrreflexive(a.value); }
    }
    forall a: Option<string>, b: Option<string>, c: Option<string> | OptLess(a, b) && OptLess(b, c)
      ensures OptLess(a, c)
    {
      if a.Some? { StrLessTransitive(a.value, b.value, c.value); }
    }
    forall a: Option<string>, b: Option<string> | a != b
      ensures OptLess(a, b) || OptLess(b, a)
    {
      if a.Some? && b.Some? { StrLessTotal(a.value, b.value); }
    }
  }
}
