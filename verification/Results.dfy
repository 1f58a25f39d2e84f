/** Failure-carrying values shared by the models: Go's `(value, error)` and nil pointers. */
module Results {

  datatype Option<+T> = None | Some(value: T)

  datatype Result<+T, +E> = Ok(value: T) | Err(error: E)

  /** One past the largest Go `uint64`. */
  const TWO_TO_THE_64: nat := 0x1_0000_0000_0000_0000

  type Uint64 = n: nat | n < TWO_TO_THE_64

  /** Go's `uint64` addition and subtraction wrap around. */
  function Add64(a: nat, b: nat): Uint64 {
    (a + b) % TWO_TO_THE_64
  }

  function Sub64(a: Uint64, b: Uint64): Uint64 {
    (a - b) % TWO_TO_THE_64
  }

  lemma Wrap64(a: Uint64, b: Uint64)
    ensures Add64(a, b) == if a + b < TWO_TO_THE_64 then a + b else a + b - TWO_TO_THE_64
    ensures Sub64(a, b) == if a >= b then a - b else a - b + TWO_TO_THE_64
  {
  }

  /** What the outside world does in one database write; `Unreported` commits but reports an error. */
  datatype Fault = Works | Fails | Unreported

  /** The fault of the next call; past the end of the plan nothing goes wrong. */
  function NextFault(plan: seq<Fault>): Fault {
    if plan == [] then Works else plan[0]
  }

  function LaterFaults(plan: seq<Fault>): seq<Fault> {
    if plan == [] then [] else plan[1..]
  }

  predicate AllWork(plan: seq<Fault>) {
    forall k :: 0 <= k < |plan| ==> plan[k].Works?
  }

  function Min(a: int, b: int): int {
    if a <= b then a else b
  }

  function Max(a: int, b: int): int {
    if a <= b then b else a
  }
}
