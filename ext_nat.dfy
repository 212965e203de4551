/**
 * Distances of the shortest-path engine: a natural number or +infinity.
 * The arithmetic follows pathFinding.js's use of Number.POSITIVE_INFINITY:
 * infinity absorbs addition, `Inf <= Inf` holds and `Inf < Inf` does not.
 */
module ExtendedNat {

  datatype ExtNat = Fin(n: nat) | Inf

  function Add(a: ExtNat, b: ExtNat): ExtNat
  {
    if a.Fin? && b.Fin? then Fin(a.n + b.n) else Inf
  }

  /** `a <= b` on extended naturals */
  predicate Le(a: ExtNat, b: ExtNat)
  {
    b.Inf? || (a.Fin? && a.n <= b.n)
  }

  /** `a < b` on extended naturals */
  predicate Lt(a: ExtNat, b: ExtNat)
  {
    a.Fin? && (b.Inf? || a.n < b.n)
  }
}
