/** The routine as a whole: accumulate the net-balance table from the
    expenses, split it into creditors and debtors, and walk the two lists.

    `Transfers` is what the routine returns, as a definition;
    `CalculateMinCashFlow` is the routine itself, and its contract states
    what the result means in terms of each member's net balance.
 */
module Flow {
  import opened Types
  import opened Ledger
  import opened Settlement
  import opened Matching

  /** The currency every transfer is tagged with: that of the first
      expense, whether or not that expense is shared, else TWD. */
  function TransferCurrency(es: seq<Expense>): Currency
  {
    if |es| > 0 then es[0].currency else TWD
  }

  /** The transfers the routine returns for an expense list. */
  function Transfers(es: seq<Expense>): seq<DebtSummary>
  {
    Rounded(Matched(Accumulate(es), TransferCurrency(es)))
  }

  /** The matching of a table's creditors with its debtors, before
      rounding. */
  function Matched(b: seq<Entry>, currency: Currency): seq<DebtSummary>
  {
    Greedy(Creditors(b), Debtors(b), currency)
  }

  /** After transfers `ts`, every member owed more than the tolerance in
      table `b` is left owed less than the tolerance plus `slack`. */
  ghost predicate CreditorsPaid(b: seq<Entry>, ts: seq<DebtSummary>, slack: real)
  {
    forall n :: Lookup(b, n) > Tolerance ==> Lookup(b, n) - Received(ts, n) < Tolerance + slack
  }

  /** After transfers `ts`, every member owing more than the tolerance in
      table `b` is left owing less than the tolerance plus `slack`. */
  ghost predicate DebtorsPaid(b: seq<Entry>, ts: seq<DebtSummary>, slack: real)
  {
    forall n :: Lookup(b, n) < -Tolerance ==> -Lookup(b, n) - Paid(ts, n) < Tolerance + slack
  }

  /** Every emitted transfer goes from a member who owes more than the
      tolerance to one who is owed more than it, and carries the currency
      and at least the tolerance in whole cents. */
  lemma {:induction false} SettleRouted(b: seq<Entry>, currency: Currency)
    requires UniqueNames(b)
    ensures forall t :: t in Rounded(Matched(b, currency)) ==>
              && t.currency == currency && t.amount >= Tolerance && IsCents(t.amount)
              && Lookup(b, t.from) < -Tolerance && Lookup(b, t.to) > Tolerance
  {
    var g := Matched(b, currency);
    var ts := Rounded(g);
    SidesAboveTolerance(b);
    GreedyRouted(Creditors(b), Debtors(b), currency);
    RoundedTransfers(g);
    forall t | t in ts
      ensures t.currency == currency && t.amount >= Tolerance && IsCents(t.amount)
      ensures Lookup(b, t.from) < -Tolerance && Lookup(b, t.to) > Tolerance
    {
      var k :| 0 <= k < |ts| && ts[k] == t;
      assert g[k] in g;
      TableSides(b, g[k].from, g[k].to);
    }
  }

  /** Before rounding, nobody receives more than they are owed or pays more
      than they owe, and members within the tolerance take no part. */
  lemma {:induction false} SettleBounded(b: seq<Entry>, currency: Currency)
    requires UniqueNames(b)
    ensures forall n :: 0.0 <= Received(Matched(b, currency), n) <= (if Lookup(b, n) > Tolerance then Lookup(b, n) else 0.0)
    ensures forall n :: 0.0 <= Paid(Matched(b, currency), n) <= (if Lookup(b, n) < -Tolerance then -Lookup(b, n) else 0.0)
  {
    SidesUnique(b);
    SidesAboveTolerance(b);
    CreditorsLookup(b);
    DebtorsLookup(b);
    GreedyBounded(Creditors(b), Debtors(b), currency);
  }

  /** Before rounding, every creditor or every debtor ends within the
      tolerance. */
  lemma {:induction false} SettleSettles(b: seq<Entry>, currency: Currency)
    requires UniqueNames(b)
    ensures CreditorsPaid(b, Matched(b, currency), 0.0) || DebtorsPaid(b, Matched(b, currency), 0.0)
  {
    var g := Matched(b, currency);
    SidesUnique(b);
    SidesAboveTolerance(b);
    CreditorsLookup(b);
    DebtorsLookup(b);
    GreedySettles(Creditors(b), Debtors(b), currency);
    assert || (forall n :: Lookup(Creditors(b), n) - Received(g, n) < Tolerance)
           || (forall n :: Lookup(Debtors(b), n) - Paid(g, n) < Tolerance);
    if forall n :: Lookup(Creditors(b), n) - Received(g, n) < Tolerance {
      forall n | Lookup(b, n) > Tolerance
        ensures Lookup(b, n) - Received(g, n) < Tolerance
      {
        assert Lookup(Creditors(b), n) == Lookup(b, n);
      }
      assert CreditorsPaid(b, g, 0.0);
    } else {
      forall n | Lookup(b, n) < -Tolerance
        ensures -Lookup(b, n) - Paid(g, n) < Tolerance
      {
        assert Lookup(Debtors(b), n) == -Lookup(b, n);
      }
      assert DebtorsPaid(b, g, 0.0);
    }
  }

  /** Fewer transfers than unsettled members. */
  lemma {:induction false} SettleLength(b: seq<Entry>, currency: Currency)
    ensures var ts := Rounded(Matched(b, currency));
            |ts| == 0 || |ts| < Unsettled(b)
  {
    UnsettledSplit(b);
    GreedyLength(Creditors(b), Debtors(b), currency);
    RoundedTransfers(Matched(b, currency));
  }

  /** The inner settlement of the source on a balance table: the rounded
      matching of its creditors with its debtors.  Every transfer goes from
      a member who owes more than the tolerance to one who is owed more
      than it, so never to oneself, and carries the given currency and at
      least the tolerance in whole cents; before rounding, nobody receives
      more than they are owed or pays more than they owe, members within
      the tolerance take no part, and every creditor or every debtor ends
      within the tolerance; rounding moves each member's totals by at most
      half a cent per transfer; and there are fewer transfers than
      unsettled members. */
  method Settle(b: seq<Entry>, currency: Currency) returns (ts: seq<DebtSummary>)
    requires UniqueNames(b)
    ensures ts == Rounded(Matched(b, currency))
    ensures forall t :: t in ts ==>
              && t.currency == currency && t.amount >= Tolerance && IsCents(t.amount)
              && Lookup(b, t.from) < -Tolerance && Lookup(b, t.to) > Tolerance
    ensures forall t :: t in ts ==> t.from != t.to
    ensures forall n :: 0.0 <= Received(Matched(b, currency), n) <= (if Lookup(b, n) > Tolerance then Lookup(b, n) else 0.0)
    ensures forall n :: 0.0 <= Paid(Matched(b, currency), n) <= (if Lookup(b, n) < -Tolerance then -Lookup(b, n) else 0.0)
    ensures CreditorsPaid(b, Matched(b, currency), 0.0) || DebtorsPaid(b, Matched(b, currency), 0.0)
    ensures forall n :: Received(Matched(b, currency), n) - HalfCent * (|ts| as real) <= Received(ts, n)
                                                                                  <= Received(Matched(b, currency), n) + HalfCent * (|ts| as real)
    ensures forall n :: Paid(Matched(b, currency), n) - HalfCent * (|ts| as real) <= Paid(ts, n)
                                                                              <= Paid(Matched(b, currency), n) + HalfCent * (|ts| as real)
    ensures |ts| == 0 || |ts| < Unsettled(b)
  {
    ts := Match(Creditors(b), Debtors(b), currency);
    SettleRouted(b, currency);
    SettleBounded(b, currency);
    SettleSettles(b, currency);
    SettleLength(b, currency);
    forall n
      ensures Received(Matched(b, currency), n) - HalfCent * (|ts| as real) <= Received(ts, n)
                                                                         <= Received(Matched(b, currency), n) + HalfCent * (|ts| as real)
      ensures Paid(Matched(b, currency), n) - HalfCent * (|ts| as real) <= Paid(ts, n)
                                                                     <= Paid(Matched(b, currency), n) + HalfCent * (|ts| as real)
    {
      RoundedTotals(Matched(b, currency), n);
      RoundedTransfers(Matched(b, currency));
    }
  }

  /** A name on the debtor list owes, and a name on the creditor list is
      owed, more than the tolerance. */
  lemma {:induction false} TableSides(b: seq<Entry>, from: string, to: string)
    requires UniqueNames(b)
    requires from in Names(Debtors(b)) && to in Names(Creditors(b))
    ensures Lookup(b, from) < -Tolerance && Lookup(b, to) > Tolerance
  {
    var c := NameIndex(Creditors(b), to);
    var d := NameIndex(Debtors(b), from);
    CreditorLookup(b, c);
    DebtorLookup(b, d);
  }

  /** Each transfer of the routine, in terms of net balances: it goes from a
      member who owes more than the tolerance to one who is owed more than
      it, carries the first expense's currency and at least the tolerance
      in whole cents. */
  lemma {:induction false} FlowRouted(es: seq<Expense>)
    ensures forall t :: t in Transfers(es) ==>
              && t.currency == TransferCurrency(es) && t.amount >= Tolerance && IsCents(t.amount)
              && Net(es, t.from) < -Tolerance && Net(es, t.to) > Tolerance
  {
    var b := Accumulate(es);
    SettleRouted(b, TransferCurrency(es));
  }

  /** Members within the tolerance take no part, and nobody receives or
      pays more than their net balance, up to half a cent per transfer. */
  lemma {:induction false} FlowBounded(es: seq<Expense>)
    ensures var ts := Transfers(es);
            forall n :: Net(es, n) <= Tolerance ==> Received(ts, n) == 0.0
    ensures var ts := Transfers(es);
            forall n :: Net(es, n) >= -Tolerance ==> Paid(ts, n) == 0.0
    ensures var ts := Transfers(es);
            forall n :: Received(ts, n) <= Net(es, n) + HalfCent * (|ts| as real) || Net(es, n) <= Tolerance
    ensures var ts := Transfers(es);
            forall n :: Paid(ts, n) <= -Net(es, n) + HalfCent * (|ts| as real) || Net(es, n) >= -Tolerance
  {
    var b := Accumulate(es);
    var c := TransferCurrency(es);
    var g := Matched(b, c);
    var ts := Transfers(es);
    FlowRouted(es);
    SettleBounded(b, c);
    forall n
      ensures Net(es, n) <= Tolerance ==> Received(ts, n) == 0.0
      ensures Net(es, n) >= -Tolerance ==> Paid(ts, n) == 0.0
      ensures Received(ts, n) <= Net(es, n) + HalfCent * (|ts| as real) || Net(es, n) <= Tolerance
      ensures Paid(ts, n) <= -Net(es, n) + HalfCent * (|ts| as real) || Net(es, n) >= -Tolerance
    {
      UntouchedName(ts, n);
      RoundedTotals(g, n);
      RoundedTransfers(g);
    }
  }

  /** Every creditor or every debtor ends within the tolerance, up to half
      a cent of rounding per transfer. */
  lemma {:induction false} FlowSettles(es: seq<Expense>)
    ensures var ts := Transfers(es);
            var slack := HalfCent * (|ts| as real);
            CreditorsPaid(Accumulate(es), ts, slack) || DebtorsPaid(Accumulate(es), ts, slack)
  {
    var b := Accumulate(es);
    var c := TransferCurrency(es);
    var g := Matched(b, c);
    var ts := Transfers(es);
    var slack := HalfCent * (|ts| as real);
    RoundedTransfers(g);
    assert |ts| == |g|;
    SettleSettles(b, c);
    if CreditorsPaid(b, g, 0.0) {
      forall n | Lookup(b, n) > Tolerance
        ensures Lookup(b, n) - Received(ts, n) < Tolerance + slack
      {
        RoundedTotals(g, n);
      }
      assert CreditorsPaid(b, ts, slack);
    } else {
      forall n | Lookup(b, n) < -Tolerance
        ensures -Lookup(b, n) - Paid(ts, n) < Tolerance + slack
      {
        RoundedTotals(g, n);
      }
      assert DebtorsPaid(b, ts, slack);
    }
  }

  /** A list with no shared expense gives no transfers. */
  lemma {:induction false} FlowEmpty(es: seq<Expense>)
    requires forall e :: e in es ==> !Applies(e)
    ensures Transfers(es) == []
  {
    assert Accumulate(es) == [];
    assert Creditors([]) == [];
  }

  /** A personal expense, or one with no participants, changes nothing
      once it is not the first in the list. */
  lemma {:induction false} SkippedExpenseIgnored(a: seq<Expense>, e: Expense, c: seq<Expense>)
    requires |a| > 0 && !Applies(e)
    ensures Transfers(a + [e] + c) == Transfers(a + c)
  {
    ApplyAllAppend([], a + [e], c);
    ApplyAllAppend([], a, [e]);
    ApplyAllAppend([], a, c);
    assert ApplyAll(ApplyAll([], a), [e]) == ApplyAll([], a);
    assert (a + [e] + c)[0] == (a + c)[0] == a[0];
  }

  /** The tag comes from the first expense even when that expense is
      skipped: such an expense changes no balance, yet every transfer of
      the rest of the list is retagged with its currency. */
  lemma {:induction false} SkippedFirstSetsCurrency(e: Expense, rest: seq<Expense>)
    requires !Applies(e)
    ensures Transfers([e] + rest) == Retag(Transfers(rest), e.currency)
  {
    var b := Accumulate(rest);
    assert ([e] + rest)[0] == e && ([e] + rest)[1..] == rest;
    assert Accumulate([e] + rest) == b;
    GreedyRetag(Creditors(b), Debtors(b), TransferCurrency(rest), e.currency);
    RoundedRetag(Matched(b, TransferCurrency(rest)), e.currency);
  }

  /** The debt-settlement routine.  In terms of each member's net balance
      over the shared expenses: every transfer goes from a member who owes
      more than the tolerance to one who is owed more than it, is tagged
      with the first expense's currency, and carries at least the tolerance
      in whole cents; members within the tolerance take no part; nobody
      receives or pays more than their balance, up to half a cent per
      transfer of rounding; every creditor or every debtor ends within the
      tolerance, up to the same rounding; a list with no shared expense
      gives no transfers; and there are fewer transfers than unsettled
      members. */
  method CalculateMinCashFlow(es: seq<Expense>) returns (ts: seq<DebtSummary>)
    ensures ts == Transfers(es)
    ensures (forall e :: e in es ==> !Applies(e)) ==> ts == []
    ensures forall t :: t in ts ==>
              && t.currency == TransferCurrency(es) && t.amount >= Tolerance && IsCents(t.amount)
              && Net(es, t.from) < -Tolerance && Net(es, t.to) > Tolerance
    ensures forall n :: Net(es, n) <= Tolerance ==> Received(ts, n) == 0.0
    ensures forall n :: Net(es, n) >= -Tolerance ==> Paid(ts, n) == 0.0
    ensures forall n :: Received(ts, n) <= Net(es, n) + HalfCent * (|ts| as real) || Net(es, n) <= Tolerance
    ensures forall n :: Paid(ts, n) <= -Net(es, n) + HalfCent * (|ts| as real) || Net(es, n) >= -Tolerance
    ensures var slack := HalfCent * (|ts| as real);
            CreditorsPaid(Accumulate(es), ts, slack) || DebtorsPaid(Accumulate(es), ts, slack)
    ensures |ts| == 0 || |ts| < Unsettled(Accumulate(es))
  {
    var b := Accumulate(es);
    ts := Settle(b, TransferCurrency(es));
    FlowRouted(es);
    FlowBounded(es);
    FlowSettles(es);
    if forall e :: e in es ==> !Applies(e) {
      FlowEmpty(es);
    }
  }
}
