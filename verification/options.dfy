/**
  The optional value used for JavaScript's `null`, `undefined` and `NaN`
  results, and the first-match search shared by every regular-expression
  scan and by the walk over the parser registry.
 */
module Options {

  datatype Option<+T> = None | Some(value: T)

  /** The first index in [from, to] at which `at` finds something, trying
      the indices from left to right as a regular-expression search and a
      `for ... of` loop with an early `return` do. */
  function Leftmost<T>(at: nat -> Option<T>, from: nat, to: nat): (r: Option<(nat, T)>)
    decreases to - from
    ensures r.Some? ==> from <= r.value.0 <= to && at(r.value.0) == Some(r.value.1)
    ensures r.Some? ==> forall i :: from <= i < r.value.0 ==> at(i).None?
    ensures r.None? ==> forall i :: from <= i <= to ==> at(i).None?
  {
    if from > to then None
    else
      match at(from)
      case Some(v) => Some((from, v))
      case None => Leftmost(at, from + 1, to)
  }

  /** The search stops at the first index that finds something. */
  lemma LeftmostAt<T>(at: nat -> Option<T>, from: nat, to: nat, p: nat)
    requires from <= p <= to && at(p).Some?
    requires forall i :: from <= i < p ==> at(i).None?
    ensures Leftmost(at, from, to) == Some((p, at(p).value))
  {
  }

  /** The greatest index in [lo, hi] at which `at` finds something, trying
      the indices from hi downwards as a greedy quantifier backtracks. */
  function Longest<T>(at: nat -> Option<T>, lo: nat, hi: nat): (r: Option<(nat, T)>)
    decreases hi
    ensures r.Some? ==> lo <= r.value.0 <= hi && at(r.value.0) == Some(r.value.1)
    ensures r.Some? ==> forall i :: r.value.0 < i <= hi ==> at(i).None?
    ensures r.None? ==> forall i :: lo <= i <= hi ==> at(i).None?
  {
    if hi < lo then None
    else
      match at(hi)
      case Some(v) => Some((hi, v))
      case None => if hi == 0 then None else Longest(at, lo, hi - 1)
  }
}
