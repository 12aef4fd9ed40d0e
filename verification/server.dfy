/** The service as a whole: a sequence of requests applied one after another to the
    customer collection, where a refused request leaves the collection as it was. */
module Server {
  import opened LedgerTypes
  import opened Balance
  import opened Lookup
  import opened StatementFilter
  import opened Handlers

  /** The requests that change the collection. */
  datatype Request =
    | OpenAccount(cpf: string, name: string, id: string)
    | MakeDeposit(cpf: string, description: string, amount: int, today: Day)
    | MakeWithdraw(cpf: string, amount: int, today: Day)
    | RenameAccount(cpf: string, name: string)
    | CloseAccount(cpf: string)

  /** The handler's verdict on one request. */
  function Outcome(s: State, req: Request): Result<State> {
    match req
    case OpenAccount(cpf, name, id) => CreateAccount(s, cpf, name, id)
    case MakeDeposit(cpf, description, amount, today) => Deposit(s, cpf, description, amount, today)
    case MakeWithdraw(cpf, amount, today) => Withdraw(s, cpf, amount, today)
    case RenameAccount(cpf, name) => UpdateAccount(s, cpf, name)
    case CloseAccount(cpf) => DeleteAccount(s, cpf)
  }

  /** The collection after one request. */
  function Handle(s: State, req: Request): State {
    var r := Outcome(s, req);
    if r.Ok? then r.value else s
  }

  /** The collection after a sequence of requests, handled in order. */
  function Serve(s: State, reqs: seq<Request>): State
    decreases |reqs|
  {
    if |reqs| == 0 then s else Serve(Handle(s, reqs[0]), reqs[1..])
  }

  /** Every customer's balance is at least zero. */
  ghost predicate NonNegativeBalances(s: State) {
    forall i :: 0 <= i < |s| ==> GetBalance(s[i].statement) >= 0
  }

  /** Replacing customers without changing any cpf keeps the cpfs distinct. */
  lemma SameKeysDistinct(s: State, t: State)
    requires DistinctCpfs(s)
    requires |s| == |t|
    requires forall i :: 0 <= i < |s| ==> s[i].cpf == t[i].cpf
    ensures DistinctCpfs(t)
  {
  }

  /** Every request keeps the cpfs distinct: creation refuses a duplicate, deposit,
      withdraw and rename never touch a cpf, and delete only removes a customer. */
  lemma HandlePreservesDistinct(s: State, req: Request)
    requires DistinctCpfs(s)
    ensures DistinctCpfs(Handle(s, req))
  {
    var r := Outcome(s, req);
    if r.Ok? && !req.OpenAccount? && !req.CloseAccount? {
      var i := Find(s, req.cpf).value;
      assert ResolvesTo(s, req.cpf, i);
      SameKeysDistinct(s, r.value);
    }
  }

  /** From a collection with distinct cpfs, any sequence of requests keeps them distinct. */
  lemma {:induction false} ServePreservesDistinct(s: State, reqs: seq<Request>)
    requires DistinctCpfs(s)
    ensures DistinctCpfs(Serve(s, reqs))
    decreases |reqs|
  {
    if |reqs| > 0 {
      HandlePreservesDistinct(s, reqs[0]);
      ServePreservesDistinct(Handle(s, reqs[0]), reqs[1..]);
    }
  }

  /** Deposits of non-negative amounts and accepted withdrawals keep every balance
      non-negative. */
  lemma HandlePreservesNonNegative(s: State, req: Request)
    requires NonNegativeBalances(s)
    requires req.MakeDeposit? ==> req.amount >= 0
    ensures NonNegativeBalances(Handle(s, req))
  {
    var r := Outcome(s, req);
    if r.Ok? {
      match req
      case OpenAccount(_, _, _) =>
        assert GetBalance([]) == 0;
      case MakeDeposit(cpf, _, _, _) =>
        assert ResolvesTo(s, cpf, Find(s, cpf).value);
      case MakeWithdraw(cpf, _, _) =>
        assert ResolvesTo(s, cpf, Find(s, cpf).value);
      case RenameAccount(cpf, _) =>
        assert ResolvesTo(s, cpf, Find(s, cpf).value);
      case CloseAccount(_) =>
    }
  }

  /** No request can make a balance negative unless some deposit amount is negative. */
  lemma {:induction false} ServePreservesNonNegative(s: State, reqs: seq<Request>)
    requires NonNegativeBalances(s)
    requires forall k :: 0 <= k < |reqs| && reqs[k].MakeDeposit? ==> reqs[k].amount >= 0
    ensures NonNegativeBalances(Serve(s, reqs))
    decreases |reqs|
  {
    if |reqs| > 0 {
      HandlePreservesNonNegative(s, reqs[0]);
      ServePreservesNonNegative(Handle(s, reqs[0]), reqs[1..]);
    }
  }

  /** A request naming an unregistered cpf is refused with NotFound and changes nothing. */
  lemma UnknownCpfChangesNothing(s: State, req: Request)
    requires !req.OpenAccount?
    requires !HasCpf(s, req.cpf)
    ensures Outcome(s, req) == Err(NotFound)
    ensures Handle(s, req) == s
  {
  }

  /** A second account with a registered cpf is refused with Conflict and changes nothing. */
  lemma DuplicateCreateChangesNothing(s: State, cpf: string, name: string, id: string)
    requires HasCpf(s, cpf)
    ensures Outcome(s, OpenAccount(cpf, name, id)) == Err(Conflict)
    ensures Handle(s, OpenAccount(cpf, name, id)) == s
  {
  }

  /** A withdrawal above the balance is refused with InsufficientFunds and changes nothing. */
  lemma RejectedWithdrawChangesNothing(s: State, cpf: string, amount: int, today: Day)
    requires HasCpf(s, cpf)
    requires GetBalance(s[Find(s, cpf).value].statement) < amount
    ensures Outcome(s, MakeWithdraw(cpf, amount, today)) == Err(InsufficientFunds)
    ensures Handle(s, MakeWithdraw(cpf, amount, today)) == s
  {
    assert ResolvesTo(s, cpf, Find(s, cpf).value);
  }

  /** A deposit made today leaves the statement-by-date answer for any other day as it was. */
  lemma DepositKeepsOtherDays(s: State, cpf: string, description: string, amount: int, today: Day, day: Day)
    requires HasCpf(s, cpf)
    requires day != today
    ensures StatementByDate(Handle(s, MakeDeposit(cpf, description, amount, today)), cpf, Some(day))
      == StatementByDate(s, cpf, Some(day))
  {
    var i := Find(s, cpf).value;
    assert ResolvesTo(s, cpf, i);
    var t := Handle(s, MakeDeposit(cpf, description, amount, today));
    FindSameKeys(s, t, cpf);
    assert ResolvesTo(t, cpf, i);
    var op := Credit(amount, description, today);
    assert t[i].statement == s[i].statement + [op];
    assert [op][1..] == [];
    assert OnDay([op], day) == [];
    OnDayConcat(s[i].statement, [op], day);
    assert OnDay(t[i].statement, day) == OnDay(s[i].statement, day);
    assert GetAccount(s, cpf) == Ok(s[i]);
    assert GetAccount(t, cpf) == Ok(t[i]);
  }

  /** Renaming then reading the account returns the old record with the new name. */
  lemma UpdateThenGet(s: State, cpf: string, name: string)
    requires HasCpf(s, cpf)
    ensures GetAccount(Handle(s, RenameAccount(cpf, name)), cpf)
      == Ok(s[Find(s, cpf).value].(name := name))
  {
    var i := Find(s, cpf).value;
    assert ResolvesTo(s, cpf, i);
    var t := Handle(s, RenameAccount(cpf, name));
    FindSameKeys(s, t, cpf);
    assert ResolvesTo(t, cpf, i);
  }

  /** The example session: open "111" for Ana, deposit 100, a withdrawal of 150 is
      refused with the balance still 100, a withdrawal of 50 leaves 50. */
  lemma ExampleSession(today: Day)
    ensures var s1 := Handle([], OpenAccount("111", "Ana", "id-1"));
      var s2 := Handle(s1, MakeDeposit("111", "salary", 100, today));
      && GetBalanceOf(s2, "111") == Ok(100)
      && Outcome(s2, MakeWithdraw("111", 150, today)) == Err(InsufficientFunds)
      && GetBalanceOf(Handle(s2, MakeWithdraw("111", 150, today)), "111") == Ok(100)
      && GetBalanceOf(Handle(s2, MakeWithdraw("111", 50, today)), "111") == Ok(50)
  {
    var c := Credit(100, "salary", today);
    var d := Debit(50, today);
    var ana := Customer("111", "Ana", "id-1", []);
    var s1 := Handle([], OpenAccount("111", "Ana", "id-1"));
    assert s1 == [ana];
    assert ResolvesTo(s1, "111", 0);
    var s2 := Handle(s1, MakeDeposit("111", "salary", 100, today));
    assert s2 == [ana.(statement := [c])];
    assert ResolvesTo(s2, "111", 0);
    BalanceAppend([], c);
    assert GetBalance([c]) == 100;
    assert GetBalance(s2[0].statement) == 100;
    var s3 := Handle(s2, MakeWithdraw("111", 50, today));
    assert s3[0].statement == [c] + [d] == [c, d];
    assert s3 == [ana.(statement := [c, d])];
    assert ResolvesTo(s3, "111", 0);
    BalanceAppend([c], d);
  }
}
