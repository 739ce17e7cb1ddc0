/** Search scores as the engine stores them: a natural number of unit steps, or
    the JavaScript value `Infinity`, which the engine uses only to mean "not
    reached yet". No other floating-point value ever occurs. */
module Scores {

  datatype Ext = Fin(n: nat) | Inf

  /** JavaScript's `a < b` on these values. It is also the test the sort
      comparator `a - b` makes, where the comparator's result counts as
      "before" only when it is negative: `Infinity - Infinity` is NaN, which is
      not negative, so two infinite scores compare as equal. */
  predicate Lt(a: Ext, b: Ext) {
    a.Fin? && (b.Inf? || a.n < b.n)
  }

  /** Not after: the negation of `Lt` with the arguments swapped. */
  predicate Le(a: Ext, b: Ext) {
    !Lt(b, a)
  }

  /** `x + 1`, with `Infinity + 1 == Infinity`. */
  function Succ(a: Ext): (r: Ext)
    ensures r.Fin? <==> a.Fin?
    ensures a.Fin? ==> r.n == a.n + 1
  {
    match a
    case Fin(n) => Fin(n + 1)
    case Inf => Inf
  }

  /** `Lt` is a strict total order, so every stable sort by it produces the
      same sequence. */
  lemma LtStrictTotalOrder(a: Ext, b: Ext, c: Ext)
    ensures !Lt(a, a)
    ensures Lt(a, b) && Lt(b, c) ==> Lt(a, c)
    ensures Lt(a, b) || Lt(b, a) || a == b
    ensures a.Fin? ==> Lt(a, Inf)
    ensures !Lt(Inf, a)
  {
  }
}
