/** The balance of a statement: a left fold that adds credits and subtracts debits. */
module Balance {
  import opened LedgerTypes

  /** One step of the reduction: a credit adds its amount, a debit subtracts it. */
  function Apply(acc: int, op: Op): int {
    match op
    case Credit(amount, _, _) => acc + amount
    case Debit(amount, _) => acc - amount
  }

  /** Left-to-right reduction of the statement from accumulator `acc`. */
  function Fold(acc: int, statement: seq<Op>): int
    decreases |statement|
  {
    if |statement| == 0 then acc else Fold(Apply(acc, statement[0]), statement[1..])
  }

  /** The balance of a statement: the reduction started at 0. */
  function GetBalance(statement: seq<Op>): int {
    Fold(0, statement)
  }

  /** Reference definitions: the total of all credit amounts and of all debit amounts. */
  function Credits(statement: seq<Op>): int {
    if |statement| == 0 then 0
    else (if statement[0].Credit? then statement[0].amount else 0) + Credits(statement[1..])
  }

  function Debits(statement: seq<Op>): int {
    if |statement| == 0 then 0
    else (if statement[0].Debit? then statement[0].amount else 0) + Debits(statement[1..])
  }

  /** The accumulator passes straight through the fold. */
  lemma {:induction false} FoldShift(acc: int, statement: seq<Op>)
    ensures Fold(acc, statement) == acc + GetBalance(statement)
    decreases |statement|
  {
    if |statement| > 0 {
      var op := statement[0];
      FoldShift(Apply(acc, op), statement[1..]);
      FoldShift(Apply(0, op), statement[1..]);
    }
  }

  /** Folding over a concatenation folds the second part from the first part's result. */
  lemma {:induction false} FoldAppend(acc: int, s: seq<Op>, t: seq<Op>)
    ensures Fold(acc, s + t) == Fold(Fold(acc, s), t)
    decreases |s|
  {
    if |s| == 0 {
      assert s + t == t;
    } else {
      assert (s + t)[1..] == s[1..] + t;
      FoldAppend(Apply(acc, s[0]), s[1..], t);
    }
  }

  /** The balance distributes over concatenation of statements. */
  lemma BalanceConcat(s: seq<Op>, t: seq<Op>)
    ensures GetBalance(s + t) == GetBalance(s) + GetBalance(t)
  {
    FoldAppend(0, s, t);
    FoldShift(GetBalance(s), t);
  }

  /** The empty statement has balance 0; appending one entry adds a credit's amount
      or subtracts a debit's amount. */
  lemma BalanceAppend(s: seq<Op>, op: Op)
    ensures GetBalance([]) == 0
    ensures op.Credit? ==> GetBalance(s + [op]) == GetBalance(s) + op.amount
    ensures op.Debit? ==> GetBalance(s + [op]) == GetBalance(s) - op.amount
  {
    BalanceConcat(s, [op]);
    assert [op][1..] == [];
    assert GetBalance([op]) == Fold(Apply(0, op), []) == Apply(0, op);
  }

  /** The fold equals total credits minus total debits. */
  lemma {:induction false} BalanceIsCreditsMinusDebits(statement: seq<Op>)
    ensures GetBalance(statement) == Credits(statement) - Debits(statement)
    decreases |statement|
  {
    if |statement| > 0 {
      BalanceIsCreditsMinusDebits(statement[1..]);
      FoldShift(Apply(0, statement[0]), statement[1..]);
    }
  }
}
