/**
 * Integers extended with the two infinities. The search engine starts its
 * running maximum at minus infinity and its running minimum at plus infinity,
 * and the root window is (-inf, +inf); every real score is an integer.
 */
module ExtInts {

  datatype ExtInt = NegInf | Fin(value: int) | PosInf

  /** The order of the extended integers: -inf below every integer, +inf above. */
  predicate Le(a: ExtInt, b: ExtInt)
  {
    match a
    case NegInf => true
    case Fin(x) => (match b case NegInf => false case Fin(y) => x <= y case PosInf => true)
    case PosInf => b == PosInf
  }

  predicate Lt(a: ExtInt, b: ExtInt)
  {
    !Le(b, a)
  }

  function Max(a: ExtInt, b: ExtInt): (r: ExtInt)
    ensures Le(a, r) && Le(b, r)
    ensures r == a || r == b
  {
    if Le(a, b) then b else a
  }

  function Min(a: ExtInt, b: ExtInt): (r: ExtInt)
    ensures Le(r, a) && Le(r, b)
    ensures r == a || r == b
  {
    if Le(a, b) then a else b
  }

  lemma LeAntisymmetric(a: ExtInt, b: ExtInt)
    requires Le(a, b) && Le(b, a)
    ensures a == b
  {
  }
}
