/** Data model of the ledger: customers, their statements and the outcome of a request. */
module LedgerTypes {

  /** A calendar day. Wall-clock timestamps are abstracted to the day they fall on,
      because the only thing the service ever does with them is compare days. */
  datatype Day = Day(ordinal: int)

  /** One statement entry. Credits carry a description, debits do not. */
  datatype Op =
    | Credit(amount: int, description: string, at: Day)
    | Debit(amount: int, at: Day)

  /** A registered customer; `cpf` is the external lookup key. */
  datatype Customer = Customer(cpf: string, name: string, id: string, statement: seq<Op>)

  /** The process-wide customer collection, in insertion order. */
  type State = seq<Customer>

  /** The three ways a request is refused. */
  datatype Error = NotFound | Conflict | InsufficientFunds

  datatype Option<+T> = None | Some(value: T)

  /** Outcome of a request; usable with `:-`. */
  datatype Result<+T> = Ok(value: T) | Err(error: Error) {

    predicate IsFailure() {
      Err?
    }

    function PropagateFailure<U>(): Result<U>
      requires Err?
    {
      Err(error)
    }

    function Extract(): T
      requires Ok?
    {
      value
    }
  }
}
