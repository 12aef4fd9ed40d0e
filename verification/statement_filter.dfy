/** The statement-by-date query: the entries of a statement made on a given day. */
module StatementFilter {
  import opened LedgerTypes

  /** The entries of `statement` whose day is `day`, in statement order. */
  function OnDay(statement: seq<Op>, day: Day): (r: seq<Op>)
    ensures |r| <= |statement|
    ensures forall k :: 0 <= k < |r| ==> r[k].at == day && r[k] in statement
    ensures forall k :: 0 <= k < |statement| && statement[k].at == day ==> statement[k] in r
    decreases |statement|
  {
    if |statement| == 0 then []
    else (if statement[0].at == day then [statement[0]] else []) + OnDay(statement[1..], day)
  }

  /** `r` can be obtained from `s` by deleting entries, without reordering. */
  ghost predicate IsSubsequence(r: seq<Op>, s: seq<Op>)
    decreases |s|
  {
    if |r| == 0 then true
    else if |s| == 0 then false
    else (r[0] == s[0] && IsSubsequence(r[1..], s[1..])) || IsSubsequence(r, s[1..])
  }

  /** The filtered statement keeps the order of the original one. */
  lemma {:induction false} OnDayIsSubsequence(statement: seq<Op>, day: Day)
    ensures IsSubsequence(OnDay(statement, day), statement)
    decreases |statement|
  {
    if |statement| > 0 {
      var r := OnDay(statement, day);
      var rest := OnDay(statement[1..], day);
      OnDayIsSubsequence(statement[1..], day);
      if statement[0].at == day {
        assert r[0] == statement[0] && r[1..] == rest;
      } else {
        assert r == rest;
      }
    }
  }

  /** Every entry made on `day` is kept as often as it occurs, and no other entry is kept. */
  lemma {:induction false} OnDayCounts(statement: seq<Op>, day: Day, op: Op)
    ensures multiset(OnDay(statement, day))[op] == if op.at == day then multiset(statement)[op] else 0
    decreases |statement|
  {
    if |statement| > 0 {
      OnDayCounts(statement[1..], day, op);
      assert statement == [statement[0]] + statement[1..];
    }
  }

  /** Filtering distributes over concatenation. */
  lemma {:induction false} OnDayConcat(s: seq<Op>, t: seq<Op>, day: Day)
    ensures OnDay(s + t, day) == OnDay(s, day) + OnDay(t, day)
    decreases |s|
  {
    if |s| == 0 {
      assert s + t == t;
    } else {
      assert (s + t)[1..] == s[1..] + t;
      OnDayConcat(s[1..], t, day);
    }
  }
}
