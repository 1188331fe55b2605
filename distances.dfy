/** Distances extended with an "unreached" value, standing for float('inf'). */
module Distances {

  /** A best-known distance: unreached (infinite) or a finite integer. */
  datatype Dist = Inf | Fin(n: int)

  /** d + w, where infinity absorbs every finite weight. */
  function Add(d: Dist, w: int): (r: Dist)
    ensures r.Fin? <==> d.Fin?
    ensures r.Fin? ==> r.n - w == d.n
  {
    match d
    case Inf => Inf
    case Fin(x) => Fin(x + w)
  }

  /** a < b, where infinity is larger than every finite value and not smaller than itself. */
  predicate Less(a: Dist, b: Dist)
  {
    match a
    case Inf => false
    case Fin(x) => (match b case Inf => true case Fin(y) => x < y)
  }

  /** a <= b. */
  predicate Le(a: Dist, b: Dist)
  {
    !Less(b, a)
  }

  /**
   * Less is a strict total order with infinity on top, as the comparisons of float('inf')
   * against finite values and against itself behave.
   */
  lemma LessOrder(a: Dist, b: Dist, c: Dist)
    ensures !Less(a, a)
    ensures Less(a, b) ==> !Less(b, a)
    ensures Less(a, b) && Less(b, c) ==> Less(a, c)
    ensures Less(a, b) || a == b || Less(b, a)
    ensures !Less(Inf, a) && (a.Fin? ==> Less(a, Inf))
  {
  }

  /** Le is transitive. */
  lemma LeTrans(a: Dist, b: Dist, c: Dist)
    requires Le(a, b) && Le(b, c)
    ensures Le(a, c)
  {
  }

  /** From a <= b + w and b <= c, a <= c + w. */
  lemma LeAdd(a: Dist, b: Dist, w: int, c: int)
    requires Le(a, Add(b, w)) && Le(b, Fin(c))
    ensures Le(a, Fin(c + w))
  {
  }
}
