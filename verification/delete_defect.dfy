/** Account deletion removes the first customer in the collection rather than the
    resolved one. This module exhibits that on a concrete collection and proves the
    intended contract of the corrected deletion. */
module DeleteDefect {
  import opened LedgerTypes
  import opened Lookup
  import opened Handlers

  /** Deleting the second of two customers removes the first one instead: the
      requester's account survives and the other account is gone. */
  lemma DeleteRemovesFirstCustomer()
    ensures var a := Customer("111", "Ana", "id-1", []);
      var b := Customer("222", "Bia", "id-2", []);
      && DeleteAccount([a, b], "222") == Ok([b])
      && HasCpf([b], "222")
      && !HasCpf([b], "111")
  {
    var a := Customer("111", "Ana", "id-1", []);
    var b := Customer("222", "Bia", "id-2", []);
    assert [a, b][1] == b;
    assert [a, b][1..] == [b];
    assert [b][0] == b;
  }

  /** The corrected deletion removes exactly the resolved customer: with distinct
      cpfs, its cpf no longer resolves, the cpfs stay distinct, and every other
      customer is still present. */
  lemma DeleteResolvedRemovesKey(s: State, cpf: string)
    requires DistinctCpfs(s)
    requires HasCpf(s, cpf)
    ensures DeleteResolvedAccount(s, cpf).Ok?
    ensures var t := DeleteResolvedAccount(s, cpf).value;
      && |t| == |s| - 1
      && !HasCpf(t, cpf)
      && DistinctCpfs(t)
      && forall j :: 0 <= j < |s| && s[j].cpf != cpf ==> s[j] in t
  {
    var i := Find(s, cpf).value;
    assert ResolvesTo(s, cpf, i);
    var t := DeleteResolvedAccount(s, cpf).value;
    forall j | 0 <= j < |s| && s[j].cpf != cpf
      ensures s[j] in t
    {
      if j < i {
        assert t[j] == s[j];
      } else {
        assert t[j - 1] == s[j];
      }
    }
  }
}
