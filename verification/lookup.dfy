/** Resolving a customer from a cpf: the first customer whose cpf matches. */
module Lookup {
  import opened LedgerTypes

  /** Some customer carries this cpf (the duplicate check of account creation). */
  predicate HasCpf(s: State, cpf: string) {
    exists i | 0 <= i < |s| :: s[i].cpf == cpf
  }

  /** Index `i` is where a search for `cpf` stops: the first customer with that cpf. */
  ghost predicate ResolvesTo(s: State, cpf: string, i: int) {
    && 0 <= i < |s|
    && s[i].cpf == cpf
    && forall j :: 0 <= j < i ==> s[j].cpf != cpf
  }

  /** No two customers share a cpf. */
  ghost predicate DistinctCpfs(s: State) {
    forall i, j :: 0 <= i < j < |s| ==> s[i].cpf != s[j].cpf
  }

  /** Linear search for `cpf` starting at position `from`. */
  function FindFrom(s: State, cpf: string, from: nat): (r: Result<nat>)
    requires from <= |s|
    ensures r.Err? ==> r.error == NotFound && forall j :: from <= j < |s| ==> s[j].cpf != cpf
    ensures r.Ok? ==>
      && from <= r.value < |s|
      && s[r.value].cpf == cpf
      && forall j :: from <= j < r.value ==> s[j].cpf != cpf
    decreases |s| - from
  {
    if from == |s| then Err(NotFound)
    else if s[from].cpf == cpf then Ok(from)
    else FindFrom(s, cpf, from + 1)
  }

  /** Identity resolution: the position of the first customer with this cpf,
      or NotFound when there is none. */
  function Find(s: State, cpf: string): (r: Result<nat>)
    ensures r.Ok? <==> HasCpf(s, cpf)
    ensures r.Err? ==> r.error == NotFound
    ensures r.Ok? ==> ResolvesTo(s, cpf, r.value)
  {
    FindFrom(s, cpf, 0)
  }

  /** At most one position resolves a given cpf. */
  lemma ResolvesToUnique(s: State, cpf: string, i: int, j: int)
    requires ResolvesTo(s, cpf, i) && ResolvesTo(s, cpf, j)
    ensures i == j
  {
  }

  /** Find returns exactly the position that ResolvesTo describes. */
  lemma FindResolves(s: State, cpf: string, i: int)
    ensures Find(s, cpf) == Ok(i) <==> ResolvesTo(s, cpf, i)
  {
    if ResolvesTo(s, cpf, i) {
      assert HasCpf(s, cpf);
      ResolvesToUnique(s, cpf, i, Find(s, cpf).value);
    }
  }

  /** With distinct cpfs, every customer is resolved by its own cpf. */
  lemma FindOwnCpf(s: State, i: int)
    requires DistinctCpfs(s)
    requires 0 <= i < |s|
    ensures Find(s, s[i].cpf) == Ok(i)
  {
    assert ResolvesTo(s, s[i].cpf, i);
    FindResolves(s, s[i].cpf, i);
  }

  /** Lookup only looks at the cpfs: two collections with the same keys in the
      same order resolve every cpf to the same position. */
  lemma FindSameKeys(s: State, t: State, cpf: string)
    requires |s| == |t|
    requires forall i :: 0 <= i < |s| ==> s[i].cpf == t[i].cpf
    ensures Find(s, cpf) == Find(t, cpf)
  {
    if HasCpf(s, cpf) {
      var i := Find(s, cpf).value;
      assert ResolvesTo(t, cpf, i);
      FindResolves(t, cpf, i);
    }
  }
}
