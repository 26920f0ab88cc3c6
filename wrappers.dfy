/** Small helper datatypes shared by the other modules. */
module Wrappers {

  /** An optional value, as `std::optional` in the modelled code. */
  datatype Option<+T> = None | Some(value: T)

  /** The three-way result of a weak or strong comparison (`std::weak_ordering`, `std::strong_ordering`). */
  datatype Ordering = Lt | Eq | Gt {
    /** The ordering seen from the other operand. */
    function Flip(): Ordering {
      match this
      case Lt => Gt
      case Eq => Eq
      case Gt => Lt
    }
  }

  /** The three-way comparison of two integers (`a <=> b`). */
  function CompareInt(a: int, b: int): (r: Ordering)
    ensures r == Lt <==> a < b
    ensures r == Eq <==> a == b
    ensures r == Gt <==> a > b
  {
    if a < b then Lt else if a == b then Eq else Gt
  }
}
