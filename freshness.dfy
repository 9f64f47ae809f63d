/** The vocabulary shared by the two tracked-value wrappers: the state a
    wrapper holds, the operations a caller performs on an existing wrapper,
    and what each operation hands back. */
module Freshness {

  datatype Option<T> = None | Some(value: T)

  /** The two fields of a wrapper. `isFresh` holds when `val` has been written
      since the last freshness-consuming read. */
  datatype Cell<T> = Cell(isFresh: bool, val: T)

  /** Operations that both wrappers offer on a wrapper that already exists. */
  datatype Op<T> = Set(v: T) | Get | GetIfFresh | Peek | IsFresh

  /** What an operation returns to its caller. `set` returns nothing. */
  datatype Out<T> = Done | Val(v: T) | Maybe(m: Option<T>) | Flag(b: bool)

  /** One transition: the state after the operation and its result. */
  datatype Step<T> = Step(next: Cell<T>, out: Out<T>)

  /** The outcome of a sequence of operations: the final state and the result
      of every operation, in order. */
  datatype Trace<T> = Trace(final: Cell<T>, outs: seq<Out<T>>)

  /** The freshness-consuming reads: `get` and `get_if_fresh`. */
  predicate Consumes<T>(op: Op<T>)
  {
    op.Get? || op.GetIfFresh?
  }
}
