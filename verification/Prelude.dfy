/** Datatypes and small facts about sums, sets and integer division that every part of the model shares. */
module Prelude {

  type ChildId = string

  datatype Option<+T> = None | Some(value: T)

  datatype Result<+T, +E> = Ok(value: T) | Err(error: E)

  function Min(x: int, y: int): int { if x < y then x else y }

  function Max(x: int, y: int): int { if x < y then y else x }

  function Abs(x: int): nat { if x < 0 then -x else x }

  /** Rust's integer division truncates toward zero; Dafny's is Euclidean. */
  function DivTrunc(x: int, d: int): int
    requires d > 0
  {
    if x < 0 then -((-x) / d) else x / d
  }

  /** Seconds as nanoseconds. */
  function Nanos(secs: int): int { secs * 1_000_000_000 }

  ghost predicate Below(xs: seq<int>, bound: int) {
    forall i | 0 <= i < |xs| :: xs[i] < bound
  }

  ghost predicate Ascending(xs: seq<int>) {
    xs == [] || (Ascending(xs[..|xs| - 1]) && Below(xs[..|xs| - 1], xs[|xs| - 1]))
  }

  lemma AscendingSnoc(xs: seq<int>, v: int)
    requires Ascending(xs) && Below(xs, v)
    ensures Ascending(xs + [v])
  {
    assert (xs + [v])[..|xs|] == xs;
  }

  function Sum(xs: seq<int>): int {
    if xs == [] then 0 else Sum(xs[..|xs| - 1]) + xs[|xs| - 1]
  }

  lemma SumSnoc(xs: seq<int>, x: int)
    ensures Sum(xs + [x]) == Sum(xs) + x
  {
    assert (xs + [x])[..|xs|] == xs;
  }

  lemma Associative<T>(a: seq<T>, b: seq<T>, c: seq<T>)
    ensures a + (b + c) == a + b + c
  {
  }

  lemma UpdateTwice<K, V>(m: map<K, V>, k: K, v: V, w: V)
    ensures m[k := v][k := w] == m[k := w] && m[k := v] - {k} == m - {k}
  {
  }

  lemma SubsetCard<T>(a: set<T>, b: set<T>)
    requires a <= b
    ensures |a| <= |b|
    ensures |b - a| == |b| - |a|
  {
    assert b == a + (b - a);
  }

  /** The integers from lo up to but not including hi. */
  ghost function Range(lo: int, hi: int): (r: set<int>)
    ensures forall i :: i in r <==> lo <= i < hi
    ensures lo <= hi ==> |r| == hi - lo
    decreases hi - lo
  {
    if hi <= lo then {} else Range(lo, hi - 1) + {hi - 1}
  }
}
