/** Sums and unions over the first `n` values of a function, with
    the facts the numbering proofs need about them. */
module Folds {

  /** f(0) + f(1) + ... + f(n - 1). */
  function SumUpTo(f: int -> nat, n: int): nat
    decreases n
  {
    if n <= 0 then 0 else SumUpTo(f, n - 1) + f(n - 1)
  }

  /** f(0) + f(1) + ... + f(n - 1), as set union. */
  function UnionUpTo<T>(f: int -> set<T>, n: int): set<T>
    decreases n
  {
    if n <= 0 then {} else UnionUpTo(f, n - 1) + f(n - 1)
  }

  lemma {:induction false} SumMono(f: int -> nat, a: int, b: int)
    requires a <= b
    ensures SumUpTo(f, a) <= SumUpTo(f, b)
    decreases b - a
  {
    if a < b {
      SumMono(f, a, b - 1);
    }
  }

  /** A term counted at index j makes every later prefix sum larger. */
  lemma SumPastTerm(f: int -> nat, j: int, b: int)
    requires 0 <= j < b
    ensures SumUpTo(f, j) + f(j) <= SumUpTo(f, b)
  {
    SumMono(f, j + 1, b);
  }

  /** When every term is 0 or 1, each value below the sum is reached by the
      prefix sum just before some index whose term is 1. */
  lemma {:induction false} SumOnto(f: int -> nat, n: int, k: int) returns (j: int)
    requires forall i :: f(i) <= 1
    requires 0 <= k < SumUpTo(f, n)
    ensures 0 <= j < n && f(j) == 1 && SumUpTo(f, j) == k
    decreases n
  {
    if k < SumUpTo(f, n - 1) {
      j := SumOnto(f, n - 1, k);
    } else {
      j := n - 1;
    }
  }

  lemma {:induction false} SumExt(f: int -> nat, h: int -> nat, n: int)
    requires forall i :: 0 <= i < n ==> f(i) == h(i)
    ensures SumUpTo(f, n) == SumUpTo(h, n)
    decreases n
  {
    if n > 0 {
      SumExt(f, h, n - 1);
    }
  }

  lemma {:induction false} UnionOrigin<T>(f: int -> set<T>, n: int, x: T) returns (j: int)
    requires x in UnionUpTo(f, n)
    ensures 0 <= j < n && x in f(j)
    decreases n
  {
    if x in f(n - 1) {
      j := n - 1;
    } else {
      j := UnionOrigin(f, n - 1, x);
    }
  }

  lemma {:induction false} UnionIncludes<T>(f: int -> set<T>, n: int, j: int, x: T)
    requires 0 <= j < n && x in f(j)
    ensures x in UnionUpTo(f, n)
    decreases n
  {
    if j < n - 1 {
      UnionIncludes(f, n - 1, j, x);
    }
  }

  lemma {:induction false} UnionExt<T>(f: int -> set<T>, h: int -> set<T>, n: int)
    requires forall i :: 0 <= i < n ==> f(i) == h(i)
    ensures UnionUpTo(f, n) == UnionUpTo(h, n)
    decreases n
  {
    if n > 0 {
      UnionExt(f, h, n - 1);
    }
  }
}
