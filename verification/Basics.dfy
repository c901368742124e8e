/** Types shared by all parts of the model. */
module Basics {
  newtype byte = x: int | 0 <= x < 256
  type Bytes = seq<byte>

  type Positive = n: nat | n > 0 witness 1

  datatype Option<+T> = None | Some(value: T) {
    predicate IsFailure() {
      None?
    }

    function PropagateFailure<U>(): Option<U>
      requires None?
    {
      None
    }

    function Extract(): T
      requires Some?
    {
      value
    }

    function GetOr(default: T): (r: T) {
      if Some? then value else default
    }
  }

  function Min(a: nat, b: nat): nat {
    if a < b then a else b
  }
}
