/** Settlement per currency.

    The routine pools every expense into one balance table whatever its
    currency and tags all transfers with the first expense's currency, so
    a yen expense and a dollar expense offset each other as if both were
    in one unit.  `TransfersByCurrency` is the corrected behaviour: each
    currency's expenses are settled on their own, and the groups are
    concatenated in the order the currencies are declared.
 */
module Currencies {
  import opened Types
  import opened Ledger
  import opened Settlement
  import opened Matching
  import opened Flow

  /** The expenses recorded in currency `c`, in list order. */
  function Only(es: seq<Expense>, c: Currency): (r: seq<Expense>)
    ensures forall e :: e in r <==> e in es && e.currency == c
    ensures |r| <= |es|
  {
    if |es| == 0 then []
    else
      assert es == [es[0]] + es[1..];
      (if es[0].currency == c then [es[0]] else []) + Only(es[1..], c)
  }

  /** Filtering distributes over concatenation. */
  lemma {:induction false} OnlyAppend(a: seq<Expense>, b: seq<Expense>, c: Currency)
    ensures Only(a + b, c) == Only(a, c) + Only(b, c)
  {
    if |a| > 0 {
      OnlyAppend(a[1..], b, c);
      assert (a + b)[1..] == a[1..] + b;
      AppendAssoc(if a[0].currency == c then [a[0]] else [], Only(a[1..], c), Only(b, c));
    } else {
      assert a + b == b;
    }
  }

  /** The transfers tagged with currency `c`, in order. */
  function Tagged(ts: seq<DebtSummary>, c: Currency): (r: seq<DebtSummary>)
    ensures forall t :: t in r <==> t in ts && t.currency == c
  {
    if |ts| == 0 then []
    else
      assert ts == [ts[0]] + ts[1..];
      (if ts[0].currency == c then [ts[0]] else []) + Tagged(ts[1..], c)
  }

  /** Selecting by tag distributes over concatenation. */
  lemma {:induction false} TaggedAppend(a: seq<DebtSummary>, b: seq<DebtSummary>, c: Currency)
    ensures Tagged(a + b, c) == Tagged(a, c) + Tagged(b, c)
  {
    if |a| > 0 {
      var head := if a[0].currency == c then [a[0]] else [];
      TaggedAppend(a[1..], b, c);
      assert (a + b)[1..] == a[1..] + b;
      assert Tagged(a + b, c) == head + Tagged(a[1..] + b, c);
      assert Tagged(a, c) == head + Tagged(a[1..], c);
      AppendAssoc(head, Tagged(a[1..], c), Tagged(b, c));
    } else {
      assert a + b == b;
    }
  }

  /** Selecting by tag keeps a list whose every transfer carries the
      tag. */
  lemma {:induction false} TaggedKeep(ts: seq<DebtSummary>, c: Currency)
    requires forall t :: t in ts ==> t.currency == c
    ensures Tagged(ts, c) == ts
  {
    if |ts| > 0 {
      assert ts[0] in ts;
      assert forall t :: t in ts[1..] ==> t in ts;
      TaggedKeep(ts[1..], c);
      assert ts == [ts[0]] + ts[1..];
    }
  }

  /** Selecting by tag drops a list in which no transfer carries the
      tag. */
  lemma {:induction false} TaggedDrop(ts: seq<DebtSummary>, c: Currency)
    requires forall t :: t in ts ==> t.currency != c
    ensures Tagged(ts, c) == []
  {
    if |ts| > 0 {
      assert ts[0] in ts;
      assert forall t :: t in ts[1..] ==> t in ts;
      TaggedDrop(ts[1..], c);
    }
  }

  /** Settling one currency's expenses on their own gives transfers that
      all carry that currency. */
  lemma {:induction false} GroupCurrency(es: seq<Expense>, c: Currency)
    ensures forall t :: t in Transfers(Only(es, c)) ==> t.currency == c
  {
    var g := Only(es, c);
    if |g| == 0 {
      FlowEmpty(g);
    } else {
      assert g[0] in g;
      FlowRouted(g);
    }
  }

  /** The corrected routine: each currency settled separately, TWD first. */
  function TransfersByCurrency(es: seq<Expense>): seq<DebtSummary>
  {
    Transfers(Only(es, TWD)) + Transfers(Only(es, JPY))
  }

  /** Currency isolation: the transfers of the corrected routine tagged
      `c` are exactly those of settling the `c` expenses alone, and each
      one goes from a member who owes, to one who is owed, more than the
      tolerance within that currency. */
  lemma {:induction false} CurrencyIsolation(es: seq<Expense>)
    ensures forall c :: Tagged(TransfersByCurrency(es), c) == Transfers(Only(es, c))
    ensures forall t :: t in TransfersByCurrency(es) ==>
              && Net(Only(es, t.currency), t.from) < -Tolerance
              && Net(Only(es, t.currency), t.to) > Tolerance
  {
    forall c
      ensures Tagged(TransfersByCurrency(es), c) == Transfers(Only(es, c))
    {
      TaggedGroup(es, c);
    }
    GroupsRouted(es);
  }

  /** The transfers tagged `c` are those of the `c` group. */
  lemma {:induction false} TaggedGroup(es: seq<Expense>, c: Currency)
    ensures Tagged(TransfersByCurrency(es), c) == Transfers(Only(es, c))
  {
    var tw := Transfers(Only(es, TWD));
    var jp := Transfers(Only(es, JPY));
    GroupCurrency(es, TWD);
    GroupCurrency(es, JPY);
    TaggedAppend(tw, jp, c);
    if c == TWD {
      TaggedKeep(tw, TWD);
      TaggedDrop(jp, TWD);
      assert Tagged(tw + jp, c) == tw + [];
    } else {
      TaggedDrop(tw, JPY);
      TaggedKeep(jp, JPY);
      assert Tagged(tw + jp, c) == [] + jp;
    }
  }

  /** Each group's transfers go between members of that currency's
      balance table. */
  lemma {:induction false} GroupsRouted(es: seq<Expense>)
    ensures forall t :: t in TransfersByCurrency(es) ==>
              && Net(Only(es, t.currency), t.from) < -Tolerance
              && Net(Only(es, t.currency), t.to) > Tolerance
  {
    GroupCurrency(es, TWD);
    GroupCurrency(es, JPY);
    FlowRouted(Only(es, TWD));
    FlowRouted(Only(es, JPY));
  }

  /** An expense in one currency never changes what another currency
      settles to, wherever it sits in the list. */
  lemma {:induction false} OtherCurrencyIgnored(a: seq<Expense>, e: Expense, b: seq<Expense>, c: Currency)
    requires e.currency != c
    ensures Tagged(TransfersByCurrency(a + [e] + b), c) == Tagged(TransfersByCurrency(a + b), c)
  {
    OnlyAppend(a + [e], b, c);
    OnlyAppend(a, [e], c);
    OnlyAppend(a, b, c);
    assert Only([e], c) == [];
    assert Only(a + [e], c) == Only(a, c);
    CurrencyIsolation(a + [e] + b);
    CurrencyIsolation(a + b);
  }

  /** The corrected routine as a method: the expenses of each currency
      are settled on their own. */
  method CalculateByCurrency(es: seq<Expense>) returns (ts: seq<DebtSummary>)
    ensures ts == TransfersByCurrency(es)
    ensures forall c :: Tagged(ts, c) == Transfers(Only(es, c))
    ensures forall t :: t in ts ==>
              && Net(Only(es, t.currency), t.from) < -Tolerance
              && Net(Only(es, t.currency), t.to) > Tolerance
  {
    var tw := CalculateMinCashFlow(Only(es, TWD));
    var jp := CalculateMinCashFlow(Only(es, JPY));
    ts := tw + jp;
    CurrencyIsolation(es);
  }
}
