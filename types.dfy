/** Values of the ledger: transactions, blocks, and the outcomes of operations that can fail. */
module Types {

  /** A pending or sealed transfer. The source stores it as a dictionary with the keys
      `sender`, `recipient` and `amount`; nothing about them is checked. */
  datatype Transaction = Transaction(sender: string, recipient: string, amount: int)

  /** A sealed block. `timestamp` is the wall-clock time at which it was created. */
  datatype Block = Block(
    index: int,
    timestamp: real,
    transactions: seq<Transaction>,
    proof: int,
    previousHash: string)

  /** The exceptions the core raises: `ValueError('Invalid URL')` from node registration and
      the `IndexError` of indexing an empty list. */
  datatype Error = InvalidUrl | IndexOutOfRange

  datatype Option<+T> = None | Some(value: T)

  datatype Result<+T> = Success(value: T) | Failure(error: Error)

  /** The result of an operation that returns nothing but may raise. */
  datatype Outcome = Pass | Fail(error: Error)
}
