/**
  Integers extended with the two infinities that the search uses as
  `float('-inf')` / `float('inf')`: the initial value of a max or min
  accumulator and the open ends of an alpha-beta window.
 */
module ExtendedInts {

  datatype Ext = NegInf | Fin(n: int) | PosInf {

    /** The usual order, with NegInf below and PosInf above every integer */
    predicate Le(y: Ext) {
      NegInf? || y.PosInf? || (Fin? && y.Fin? && n <= y.n)
    }

    predicate Lt(y: Ext) {
      !y.Le(this)
    }
  }

  /** Python's two-argument `max(x, y)`: keeps `x` unless `y` is strictly greater */
  function Max(x: Ext, y: Ext): (r: Ext)
    ensures x.Le(r) && y.Le(r)
    ensures r == x || r == y
  {
    if x.Lt(y) then y else x
  }

  /** Python's two-argument `min(x, y)`: keeps `x` unless `y` is strictly smaller */
  function Min(x: Ext, y: Ext): (r: Ext)
    ensures r.Le(x) && r.Le(y)
    ensures r == x || r == y
  {
    if y.Lt(x) then y else x
  }

  /** Le is a total order, so Max and Min are the least upper and greatest lower bounds */
  lemma LeTotalOrder(x: Ext, y: Ext, z: Ext)
    ensures x.Le(x)
    ensures x.Le(y) || y.Le(x)
    ensures x.Le(y) && y.Le(x) ==> x == y
    ensures x.Le(y) && y.Le(z) ==> x.Le(z)
  {
  }

  /** Folding with Max or Min does not depend on how the fold is bracketed */
  lemma MaxMinAssociative(x: Ext, y: Ext, z: Ext)
    ensures Max(Max(x, y), z) == Max(x, Max(y, z))
    ensures Min(Min(x, y), z) == Min(x, Min(y, z))
  {
  }
}
