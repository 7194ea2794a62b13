/** The session as this core sees it. */
module Sessions {
  /** The stake-lookup key of a session: the ticket recipient the worker advertised.
      The selector never looks inside it. */
  type Address = seq<bv8>

  /** A broadcast session. `id` stands for the identity of the Go pointer (two
      sessions with equal fields are still different sessions); `latencyScore`
      is only ever compared, so it is a real number here. */
  datatype Session = Session(id: nat, recipient: Address, latencyScore: real)

  /** A Go pointer that may be nil. */
  datatype Option<T> = None | Some(value: T)
}
