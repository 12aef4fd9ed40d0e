/** One function per request handler. Each takes the customer collection and the
    request's inputs (the clock's current day and the generated id are inputs too)
    and either refuses with an Error or returns the outcome. */
module Handlers {
  import opened LedgerTypes
  import opened Balance
  import opened Lookup
  import opened StatementFilter

  /** `t` is `s` with at most the customer at position `i` replaced. */
  ghost predicate OthersUnchanged(s: State, t: State, i: int) {
    && |t| == |s|
    && forall j :: 0 <= j < |s| && j != i ==> t[j] == s[j]
  }

  /** POST /account: refuse a cpf that is already registered, otherwise register a
      new customer with an empty statement at the end of the collection. */
  function CreateAccount(s: State, cpf: string, name: string, id: string): (r: Result<State>)
    ensures r.Err? <==> HasCpf(s, cpf)
    ensures r.Err? ==> r.error == Conflict
    ensures r.Ok? ==>
      && |r.value| == |s| + 1
      && r.value[..|s|] == s
      && r.value[|s|] == Customer(cpf, name, id, [])
  {
    if HasCpf(s, cpf) then Err(Conflict) else Ok(s + [Customer(cpf, name, id, [])])
  }

  /** GET /account: the resolved customer record. */
  function GetAccount(s: State, cpf: string): (r: Result<Customer>)
    ensures !HasCpf(s, cpf) ==> r == Err(NotFound)
    ensures forall i :: ResolvesTo(s, cpf, i) ==> r == Ok(s[i])
  {
    var i :- Find(s, cpf);
    FindResolves(s, cpf, i);
    Ok(s[i])
  }

  /** GET /statement: the resolved customer's statement, in insertion order. */
  function GetStatement(s: State, cpf: string): (r: Result<seq<Op>>)
    ensures !HasCpf(s, cpf) ==> r == Err(NotFound)
    ensures forall i :: ResolvesTo(s, cpf, i) ==> r == Ok(s[i].statement)
  {
    var c :- GetAccount(s, cpf);
    Ok(c.statement)
  }

  /** GET /statement/date: the resolved customer's entries made on the queried day.
      A date that does not parse (`None`) matches no entry. */
  function StatementByDate(s: State, cpf: string, date: Option<Day>): (r: Result<seq<Op>>)
    ensures !HasCpf(s, cpf) ==> r == Err(NotFound)
    ensures forall i :: ResolvesTo(s, cpf, i) ==>
      && r.Ok?
      && IsSubsequence(r.value, s[i].statement)
      && (forall op :: op in r.value <==> op in s[i].statement && date == Some(op.at))
      && forall op :: multiset(r.value)[op] == if date == Some(op.at) then multiset(s[i].statement)[op] else 0
  {
    var c :- GetAccount(s, cpf);
    match date
    case None => Ok([])
    case Some(day) =>
      OnDayIsSubsequence(c.statement, day);
      assert forall op :: multiset(OnDay(c.statement, day))[op]
          == if op.at == day then multiset(c.statement)[op] else 0 by {
        forall op {
          OnDayCounts(c.statement, day, op);
        }
      }
      Ok(OnDay(c.statement, day))
  }

  /** GET /balance: the resolved customer's balance. */
  function GetBalanceOf(s: State, cpf: string): (r: Result<int>)
    ensures !HasCpf(s, cpf) ==> r == Err(NotFound)
    ensures forall i :: ResolvesTo(s, cpf, i) ==> r == Ok(Credits(s[i].statement) - Debits(s[i].statement))
  {
    var c :- GetAccount(s, cpf);
    BalanceIsCreditsMinusDebits(c.statement);
    Ok(GetBalance(c.statement))
  }

  /** POST /deposit: append a credit made today to the resolved customer's statement.
      The amount is not validated. */
  function Deposit(s: State, cpf: string, description: string, amount: int, today: Day): (r: Result<State>)
    ensures !HasCpf(s, cpf) ==> r == Err(NotFound)
    ensures forall i :: ResolvesTo(s, cpf, i) ==>
      && r.Ok?
      && OthersUnchanged(s, r.value, i)
      && r.value[i].cpf == s[i].cpf
      && r.value[i].name == s[i].name
      && r.value[i].id == s[i].id
      && |r.value[i].statement| == |s[i].statement| + 1
      && r.value[i].statement[..|s[i].statement|] == s[i].statement
      && r.value[i].statement[|s[i].statement|] == Credit(amount, description, today)
      && GetBalance(r.value[i].statement) == GetBalance(s[i].statement) + amount
  {
    var i :- Find(s, cpf);
    FindResolves(s, cpf, i);
    var op := Credit(amount, description, today);
    BalanceAppend(s[i].statement, op);
    Ok(s[i := s[i].(statement := s[i].statement + [op])])
  }

  /** POST /withdraw: refuse when the resolved customer's balance is below the amount,
      otherwise append a debit made today. */
  function Withdraw(s: State, cpf: string, amount: int, today: Day): (r: Result<State>)
    ensures !HasCpf(s, cpf) ==> r == Err(NotFound)
    ensures forall i :: ResolvesTo(s, cpf, i) && GetBalance(s[i].statement) < amount ==>
      r == Err(InsufficientFunds)
    ensures forall i :: ResolvesTo(s, cpf, i) && GetBalance(s[i].statement) >= amount ==>
      && r.Ok?
      && OthersUnchanged(s, r.value, i)
      && r.value[i].cpf == s[i].cpf
      && r.value[i].name == s[i].name
      && r.value[i].id == s[i].id
      && |r.value[i].statement| == |s[i].statement| + 1
      && r.value[i].statement[..|s[i].statement|] == s[i].statement
      && r.value[i].statement[|s[i].statement|] == Debit(amount, today)
      && GetBalance(r.value[i].statement) == GetBalance(s[i].statement) - amount
      && GetBalance(r.value[i].statement) >= 0
  {
    var i :- Find(s, cpf);
    FindResolves(s, cpf, i);
    if GetBalance(s[i].statement) < amount then Err(InsufficientFunds)
    else
      var op := Debit(amount, today);
      BalanceAppend(s[i].statement, op);
      Ok(s[i := s[i].(statement := s[i].statement + [op])])
  }

  /** PUT /account: overwrite the resolved customer's name (not validated). */
  function UpdateAccount(s: State, cpf: string, name: string): (r: Result<State>)
    ensures !HasCpf(s, cpf) ==> r == Err(NotFound)
    ensures forall i :: ResolvesTo(s, cpf, i) ==>
      && r.Ok?
      && OthersUnchanged(s, r.value, i)
      && r.value[i] == Customer(s[i].cpf, name, s[i].id, s[i].statement)
  {
    var i :- Find(s, cpf);
    FindResolves(s, cpf, i);
    Ok(s[i := s[i].(name := name)])
  }

  /** DELETE /account, as written: once the cpf resolves, the call splices out the
      customer at position 0, whichever customer was resolved (the start argument is
      the customer object, which converts to NaN and then to position 0). */
  function DeleteAccount(s: State, cpf: string): (r: Result<State>)
    ensures !HasCpf(s, cpf) ==> r == Err(NotFound)
    ensures HasCpf(s, cpf) ==>
      && r.Ok?
      && |r.value| == |s| - 1
      && forall j :: 0 <= j < |r.value| ==> r.value[j] == s[j + 1]
  {
    var _ :- Find(s, cpf);
    Ok(s[1..])
  }

  /** DELETE /account, as intended: remove the resolved customer and keep the others
      in order. */
  function DeleteResolvedAccount(s: State, cpf: string): (r: Result<State>)
    ensures !HasCpf(s, cpf) ==> r == Err(NotFound)
    ensures forall i :: ResolvesTo(s, cpf, i) ==>
      && r.Ok?
      && |r.value| == |s| - 1
      && (forall j :: 0 <= j < i ==> r.value[j] == s[j])
      && (forall j :: i <= j < |r.value| ==> r.value[j] == s[j + 1])
  {
    var i :- Find(s, cpf);
    FindResolves(s, cpf, i);
    Ok(s[..i] + s[i + 1..])
  }
}
