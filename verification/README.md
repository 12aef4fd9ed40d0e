# finapi ledger model

A Dafny model of the in-memory account ledger of `src/index.js`. The service
keeps one collection of customers. Each customer has a `cpf` lookup key, a name,
an id and a statement of credit and debit operations. Every HTTP handler body is
one transition over that collection: it either refuses the request with an error
or produces a new collection (or, for reads, a value).

Without the HTTP layer the model is a set of pure functions:

- `ledger_types.dfy` (`LedgerTypes`): `Day`, `Op` (`Credit` with a description,
  `Debit` without), `Customer`, `State = seq<Customer>`, the errors `NotFound`,
  `Conflict` and `InsufficientFunds`, and a `Result` usable with `:-`.
- `balance.dfy` (`Balance`): `getBalance` as a left fold, the independent
  "credits minus debits" definition, and the lemmas connecting them.
- `lookup.dfy` (`Lookup`): the `verifyIfCPFAlreadyExists` search for the first
  customer with a cpf, the `customers.some` duplicate test, and the
  distinct-cpf invariant.
- `statement_filter.dfy` (`StatementFilter`): the statement-by-date filter.
- `handlers.dfy` (`Handlers`): one function per handler body.
- `server.dfy` (`Server`): requests applied in sequence, where a refused request
  leaves the collection unchanged, and the invariants kept across any sequence.
- `delete_defect.dfy` (`DeleteDefect`): the account-deletion defect (see Findings).

The current day and the generated account id are parameters of the handlers. A
refused request is an `Err` result, and `Server.Handle` keeps the old collection
in that case, as the source does by returning before any mutation.

Two behaviours are kept as the code has them, although a careful design would differ:
- Deletion removes the customer at position 0, not the resolved customer.
- Deposit and withdraw amounts are not validated, so zero and negative amounts
  are accepted. The non-negative-balance invariant therefore needs the
  assumption that every deposit amount is non-negative. It also relies on every
  amount being present, because the model's amounts are always integers (see
  "Left out" for a missing amount).

## Model

| member | source | states |
|---|---|---|
| Balance.BalanceAppend | src/index.js:24-34 | the empty statement has balance 0; appending a credit adds its amount; appending a debit subtracts it |
| Balance.FoldAppend | src/index.js:25-31 | reducing over `s + t` equals reducing over `t` from the accumulator reached after `s` |
| Balance.BalanceConcat | src/index.js:24-34 | the balance of two concatenated statements is the sum of their balances |
| Balance.BalanceIsCreditsMinusDebits | src/index.js:24-34 | the balance equals the total of credit amounts minus the total of debit amounts |
| Lookup.FindFrom | src/index.js:13 | a linear search from a position returns the first matching position at or after it, or NotFound when none of the remaining customers matches |
| Lookup.Find | src/index.js:11-22 | lookup succeeds exactly when some customer has the cpf; a failure is NotFound; a success is the first customer whose cpf equals the key |
| Lookup.ResolvesToUnique | src/index.js:13 | at most one position is the first match of a cpf |
| Lookup.FindResolves | src/index.js:13 | lookup returns position `i` exactly when `i` is the first match |
| Lookup.FindOwnCpf | src/index.js:13 | when cpfs are distinct, every customer is found by its own cpf |
| Lookup.FindSameKeys | src/index.js:13 | lookup depends only on the cpfs, so changing names or statements never changes which customer a cpf resolves to |
| StatementFilter.OnDay | src/index.js:83 | every entry kept was made on the queried day and is in the statement; every statement entry made on that day is kept; the result is no longer than the statement |
| StatementFilter.OnDayIsSubsequence | src/index.js:83 | the filtered entries keep their statement order |
| StatementFilter.OnDayCounts | src/index.js:83 | an entry made on the queried day is kept as many times as it occurs; any other entry is not kept |
| StatementFilter.OnDayConcat | src/index.js:83 | filtering distributes over concatenation of statements |
| Handlers.CreateAccount | src/index.js:44-61 | refused with Conflict exactly when the cpf is already registered; otherwise the old collection is kept as a prefix and one customer is appended with the given cpf, name and id and an empty statement |
| Handlers.GetAccount | src/index.js:144-148 | NotFound for an unregistered cpf; otherwise the first customer with that cpf |
| Handlers.GetStatement | src/index.js:68-72 | NotFound for an unregistered cpf; otherwise the resolved customer's full statement |
| Handlers.StatementByDate | src/index.js:77-86 | NotFound for an unregistered cpf; otherwise an order-preserving subsequence of the resolved statement containing exactly the entries made on the queried day, each as many times as it occurs there, and nothing for a date that does not parse |
| Handlers.GetBalanceOf | src/index.js:164-170 | NotFound for an unregistered cpf; otherwise the resolved customer's credits minus debits |
| Handlers.Deposit | src/index.js:91-104 | NotFound for an unregistered cpf; otherwise one credit is appended to the resolved statement, earlier entries and the customer's cpf, name and id are kept, other customers are untouched, and the balance rises by the amount |
| Handlers.Withdraw | src/index.js:109-127 | NotFound for an unregistered cpf; InsufficientFunds when the balance is below the amount; otherwise one debit is appended, other customers and fields are untouched, the balance falls by the amount and stays non-negative |
| Handlers.UpdateAccount | src/index.js:132-139 | NotFound for an unregistered cpf; otherwise only the resolved customer's name changes |
| Handlers.DeleteAccount | src/index.js:153-159 | NotFound for an unregistered cpf; otherwise the collection loses exactly its first customer and the rest keep their order |
| Handlers.DeleteResolvedAccount | src/index.js:153-159 | NotFound for an unregistered cpf; otherwise exactly the resolved customer is removed and the others keep their order |
| Server.SameKeysDistinct | src/index.js:101-136 | replacing customers without changing their cpfs keeps cpfs distinct |
| Server.HandlePreservesDistinct | src/index.js:44-159 | every request (create, deposit, withdraw, rename, delete) keeps the cpfs distinct |
| Server.ServePreservesDistinct | src/index.js:44-159 | any sequence of requests keeps the cpfs distinct |
| Server.HandlePreservesNonNegative | src/index.js:91-127 | if every balance is non-negative and a deposit's amount is non-negative, every balance stays non-negative after the request |
| Server.ServePreservesNonNegative | src/index.js:91-127 | a sequence of requests with non-negative deposit amounts keeps every balance non-negative |
| Server.UnknownCpfChangesNothing | src/index.js:11-22 | a request for an unregistered cpf is refused with NotFound and leaves the collection unchanged |
| Server.DuplicateCreateChangesNothing | src/index.js:47-51 | creating an account with a registered cpf is refused with Conflict and leaves the collection unchanged |
| Server.RejectedWithdrawChangesNothing | src/index.js:113-117 | a withdrawal above the balance is refused with InsufficientFunds and leaves the collection unchanged |
| Server.DepositKeepsOtherDays | src/index.js:77-104 | a deposit made today leaves the statement-by-date answer for every other day unchanged |
| Server.UpdateThenGet | src/index.js:132-148 | renaming then reading the account returns the old record with only the name replaced |
| Server.ExampleSession | src/index.js:91-127 | open "111" for Ana and deposit 100: the balance is 100; a withdrawal of 150 is refused and the balance stays 100; a withdrawal of 50 leaves 50 |
| DeleteDefect.DeleteRemovesFirstCustomer | src/index.js:156 | deleting the second of two customers removes the first, so the requester's account survives |
| DeleteDefect.DeleteResolvedRemovesKey | src/index.js:153-159 | with distinct cpfs, corrected deletion leaves one customer fewer, the deleted cpf no longer resolves, the cpfs stay distinct, and every other customer is still present |

## Left out

- HTTP plumbing: routing, middleware chaining, status codes, JSON bodies and `app.listen` (src/index.js:1-6, 172). Refusals are `Err` results with the three error tags instead of status-400 responses.
- `uuid()` (src/index.js:56) comes from an external library. The id is a parameter, and the model does not claim that ids are fresh.
- `new Date()`, the parsing of the date query and `toDateString()` (src/index.js:81-83, 98, 121) depend on the clock and the locale. A timestamp is abstracted to the `Day` it falls on and is supplied by the caller. The date query is an `Option<Day>`, where `None` stands for a date that does not parse. Such a date matches no entry because "Invalid Date" is never a real entry's day.
- JavaScript number semantics: amounts are unbounded integers. Floating-point amounts, and string amounts that would make `acc + operation.amount` concatenate (src/index.js:27), are not modelled.
- Missing request fields are JavaScript `undefined`, and the model's fields cannot hold that value:
  - A missing `cpf` header or body field matches a customer created without a cpf (src/index.js:12-13, 45-47). The model's keys are strings only.
  - A missing `name` (src/index.js:45, 133) stores a customer without a name. The model's `name` is always a string.
  - A missing `description` (src/index.js:92) stores a credit without one, and the JSON output leaves the field out. The model's `description` is always a string.
  - A missing `amount` (src/index.js:92, 110) makes `getBalance` NaN. Then `balance < amount` (src/index.js:115) is false, so every later withdrawal from that customer is accepted. The model's amounts are always integers, so neither Handlers.Withdraw nor the non-negative-balance invariant covers this case.
- Concurrency: each handler runs to completion before the next one starts, so requests are applied in sequence.
- Server.ServePreservesNonNegative: the source does not validate deposit amounts. Balances can therefore go negative, and the invariant is stated only for request sequences whose deposit amounts are non-negative.

## Findings

| source | as written | input that shows it | evidently intended | confidence | as-written member | corrected member |
|---|---|---|---|---|---|---|
| src/index.js:156 | `customers.splice(customer, 1)` passes the customer object as the start position. It converts to NaN and then to 0, so the first customer is removed. | customers "111" then "222"; DELETE with cpf "222" removes "111" and keeps "222" | remove the resolved customer | high (not executed) | DeleteDefect.DeleteRemovesFirstCustomer | DeleteDefect.DeleteResolvedRemovesKey |

`Handlers.DeleteAccount` models the deletion as written. `Server.Handle` uses it, so the
server-level invariants are proved for the behaviour the service has. The corrected
`Handlers.DeleteResolvedAccount` carries the intended contract.
