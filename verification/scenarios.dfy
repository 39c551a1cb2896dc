/** Worked examples of the routine on small expense lists, each computed
    step by step from the definitions: the balance table, the two sorted
    sides, the greedy walk, and the transfers returned. */
module Scenarios {
  import opened Types
  import opened Ledger
  import opened Ordering
  import opened Settlement
  import opened Matching
  import opened Flow
  import opened Currencies

  /** A shared expense in yen. */
  function Shared(id: string, payer: string, amount: real, participants: seq<string>): Expense
  {
    Expense(id, payer, amount, JPY, "", "", true, participants)
  }

  /** A one-entry list is already sorted. */
  lemma {:induction false} SortOne(x: Entry)
    ensures SortDesc([x]) == [x]
  {
    assert [x][1..] == [];
  }

  /** Two entries come out larger first, the first on a tie. */
  lemma {:induction false} SortTwo(x: Entry, y: Entry)
    ensures SortDesc([x, y]) == if x.bal >= y.bal then [x, y] else [y, x]
  {
    assert [x, y][1..] == [y];
    SortOne(y);
  }

  /** The creditors of a two-entry table, before sorting. */
  lemma {:induction false} OwedTwo(x: Entry, y: Entry)
    ensures Owed([x, y]) == (if x.bal > Tolerance then [x] else []) + (if y.bal > Tolerance then [y] else [])
  {
    assert [x, y][1..] == [y];
    assert [y][1..] == [];
    assert Owed([y]) == (if y.bal > Tolerance then [y] else []) + Owed([]);
  }

  /** The debtors of a two-entry table, before sorting. */
  lemma {:induction false} OwingTwo(x: Entry, y: Entry)
    ensures Owing([x, y]) == (if x.bal < -Tolerance then [Entry(x.name, -x.bal)] else [])
                             + (if y.bal < -Tolerance then [Entry(y.name, -y.bal)] else [])
  {
    assert [x, y][1..] == [y];
    assert [y][1..] == [];
    assert Owing([y]) == (if y.bal < -Tolerance then [Entry(y.name, -y.bal)] else []) + Owing([]);
  }

  /** The creditors of a three-entry table, before sorting. */
  lemma {:induction false} OwedThree(x: Entry, y: Entry, z: Entry)
    ensures Owed([x, y, z]) == (if x.bal > Tolerance then [x] else []) + Owed([y, z])
  {
    assert [x, y, z][1..] == [y, z];
  }

  /** The debtors of a three-entry table, before sorting. */
  lemma {:induction false} OwingThree(x: Entry, y: Entry, z: Entry)
    ensures Owing([x, y, z]) == (if x.bal < -Tolerance then [Entry(x.name, -x.bal)] else []) + Owing([y, z])
  {
    assert [x, y, z][1..] == [y, z];
  }

  /** A creditor and a debtor with the same balance settle in one
      transfer of that balance. */
  lemma {:induction false} EvenPair(c: Entry, d: Entry, currency: Currency)
    requires c.bal == d.bal
    ensures Greedy([c], [d], currency) == [DebtSummary(d.name, c.name, c.bal, currency)]
  {
    assert [c][1..] == [] && [d][1..] == [];
  }

  /** A worked example's result, from its table, its two sides and its
      matching, when rounding leaves the matched amounts alone. */
  lemma {:induction false} TransfersFrom(es: seq<Expense>, b: seq<Entry>, cs: seq<Entry>, ds: seq<Entry>, g: seq<DebtSummary>)
    requires Accumulate(es) == b
    requires SortDesc(Owed(b)) == cs && SortDesc(Owing(b)) == ds
    requires Greedy(cs, ds, TransferCurrency(es)) == g
    requires Rounded(g) == g
    ensures Transfers(es) == g
  {
    assert Creditors(b) == cs && Debtors(b) == ds;
  }

  /** Whole amounts are whole cents, so rounding leaves them alone. */
  lemma {:induction false} WholeAmount(n: nat)
    ensures Cents(n as real) == n as real
  {
    var x := n as real;
    assert x * 100.0 == (n * 100) as real;
    assert IsCents(x);
    CentsKeepsCents(x);
  }


  /** A pays 3000 split among A, B and C. */
  function OnePayerList(): seq<Expense>
  {
    [Shared("1", "A", 3000.0, ["A", "B", "C"])]
  }

  /** The nets of the one-payer list: A +2000, B -1000, C -1000. */
  lemma OnePayerTable()
    ensures Accumulate(OnePayerList()) == [Entry("A", 2000.0), Entry("B", -1000.0), Entry("C", -1000.0)]
  {
    var es := OnePayerList();
    var ps := ["A", "B", "C"];
    var b := [Entry("A", 2000.0), Entry("B", -1000.0), Entry("C", -1000.0)];
    assert Share(es[0]) == 1000.0;
    assert Adjust([], "A", 3000.0) == [Entry("A", 3000.0)];
    assert Debit([Entry("A", 3000.0)], ps, 1000.0) == b by {
      assert Adjust([Entry("A", 3000.0)], "A", -1000.0) == [Entry("A", 2000.0)];
      assert Adjust([Entry("A", 2000.0)], "B", -1000.0) == [Entry("A", 2000.0), Entry("B", -1000.0)];
      assert Adjust([Entry("A", 2000.0), Entry("B", -1000.0)], "C", -1000.0) == b;
      assert ps[1..][1..] == ["C"];
    }
    assert ApplyExpense([], es[0]) == b;
  }

  /** A is the only creditor. */
  lemma OnePayerCreditors()
    ensures SortDesc(Owed([Entry("A", 2000.0), Entry("B", -1000.0), Entry("C", -1000.0)])) == [Entry("A", 2000.0)]
  {
    OwedThree(Entry("A", 2000.0), Entry("B", -1000.0), Entry("C", -1000.0));
    OwedTwo(Entry("B", -1000.0), Entry("C", -1000.0));
    SortOne(Entry("A", 2000.0));
  }

  /** B and C owe the same, so the stable sort keeps B, first in the
      table, ahead of C. */
  lemma OnePayerDebtors()
    ensures SortDesc(Owing([Entry("A", 2000.0), Entry("B", -1000.0), Entry("C", -1000.0)])) == [Entry("B", 1000.0), Entry("C", 1000.0)]
  {
    OwingThree(Entry("A", 2000.0), Entry("B", -1000.0), Entry("C", -1000.0));
    OwingTwo(Entry("B", -1000.0), Entry("C", -1000.0));
    SortTwo(Entry("B", 1000.0), Entry("C", 1000.0));
  }

  /** B pays A 1000, which leaves A owed 1000, which C pays. */
  lemma OnePayerWalk()
    ensures Greedy([Entry("A", 2000.0)], [Entry("B", 1000.0), Entry("C", 1000.0)], JPY)
            == [DebtSummary("B", "A", 1000.0, JPY), DebtSummary("C", "A", 1000.0, JPY)]
  {
    assert Reduce(Entry("A", 2000.0), 1000.0, []) == [Entry("A", 1000.0)];
    assert Reduce(Entry("B", 1000.0), 1000.0, [Entry("C", 1000.0)]) == [Entry("C", 1000.0)];
    EvenPair(Entry("A", 1000.0), Entry("C", 1000.0), JPY);
  }

  /** B and C owe A the same, so they pay in table order: B first. */
  lemma OnePayer()
    ensures Transfers(OnePayerList()) == [DebtSummary("B", "A", 1000.0, JPY), DebtSummary("C", "A", 1000.0, JPY)]
  {
    OnePayerTable();
    OnePayerCreditors();
    OnePayerDebtors();
    OnePayerWalk();
    WholeAmount(1000);
    TransfersFrom(OnePayerList(), [Entry("A", 2000.0), Entry("B", -1000.0), Entry("C", -1000.0)],
                  [Entry("A", 2000.0)], [Entry("B", 1000.0), Entry("C", 1000.0)],
                  [DebtSummary("B", "A", 1000.0, JPY), DebtSummary("C", "A", 1000.0, JPY)]);
  }

  /** The one-payer list followed by B paying 1500 split among A, B and
      C. */
  function SecondPayerList(): seq<Expense>
  {
    OnePayerList() + [Shared("2", "B", 1500.0, ["A", "B", "C"])]
  }

  /** The second payment folded into the one-payer table. */
  lemma SecondPayment()
    ensures ApplyExpense([Entry("A", 2000.0), Entry("B", -1000.0), Entry("C", -1000.0)], SecondPayerList()[1])
            == [Entry("A", 1500.0), Entry("B", 0.0), Entry("C", -1500.0)]
  {
    var es := SecondPayerList();
    var ps := ["A", "B", "C"];
    var b1 := [Entry("A", 2000.0), Entry("B", -1000.0), Entry("C", -1000.0)];
    var credited := [Entry("A", 2000.0), Entry("B", 500.0), Entry("C", -1000.0)];
    var b := [Entry("A", 1500.0), Entry("B", 0.0), Entry("C", -1500.0)];
    assert Share(es[1]) == 500.0;
    assert Adjust(b1, "B", 1500.0) == credited;
    assert Debit(credited, ps, 500.0) == b by {
      assert Adjust(credited, "A", -500.0) == [Entry("A", 1500.0), Entry("B", 500.0), Entry("C", -1000.0)];
      assert Adjust([Entry("A", 1500.0), Entry("B", 500.0), Entry("C", -1000.0)], "B", -500.0)
             == [Entry("A", 1500.0), Entry("B", 0.0), Entry("C", -1000.0)];
      assert Adjust([Entry("A", 1500.0), Entry("B", 0.0), Entry("C", -1000.0)], "C", -500.0) == b;
      assert ps[1..][1..] == ["C"];
    }
    assert ApplyExpense(b1, es[1]) == b;
  }

  /** The nets after the second payment: A +1500, B 0, C -1500. */
  lemma SecondPayerTable()
    ensures Accumulate(SecondPayerList()) == [Entry("A", 1500.0), Entry("B", 0.0), Entry("C", -1500.0)]
  {
    var es := SecondPayerList();
    OnePayerTable();
    SecondPayment();
    ApplyAllAppend([], OnePayerList(), [es[1]]);
    assert es == OnePayerList() + [es[1]];
  }

  /** A is the only creditor. */
  lemma SecondPayerCreditors()
    ensures SortDesc(Owed([Entry("A", 1500.0), Entry("B", 0.0), Entry("C", -1500.0)])) == [Entry("A", 1500.0)]
  {
    OwedThree(Entry("A", 1500.0), Entry("B", 0.0), Entry("C", -1500.0));
    OwedTwo(Entry("B", 0.0), Entry("C", -1500.0));
    SortOne(Entry("A", 1500.0));
  }

  /** B is settled and drops out: C is the only debtor. */
  lemma SecondPayerDebtors()
    ensures SortDesc(Owing([Entry("A", 1500.0), Entry("B", 0.0), Entry("C", -1500.0)])) == [Entry("C", 1500.0)]
  {
    OwingThree(Entry("A", 1500.0), Entry("B", 0.0), Entry("C", -1500.0));
    OwingTwo(Entry("B", 0.0), Entry("C", -1500.0));
    SortOne(Entry("C", 1500.0));
  }

  /** C pays A everything. */
  lemma SecondPayer()
    ensures Transfers(SecondPayerList()) == [DebtSummary("C", "A", 1500.0, JPY)]
  {
    var b := [Entry("A", 1500.0), Entry("B", 0.0), Entry("C", -1500.0)];
    var g := [DebtSummary("C", "A", 1500.0, JPY)];
    assert Accumulate(SecondPayerList()) == b by {
      SecondPayerTable();
    }
    assert SortDesc(Owed(b)) == [Entry("A", 1500.0)] && SortDesc(Owing(b)) == [Entry("C", 1500.0)] by {
      SecondPayerCreditors();
      SecondPayerDebtors();
    }
    assert Greedy([Entry("A", 1500.0)], [Entry("C", 1500.0)], JPY) == g by {
      EvenPair(Entry("A", 1500.0), Entry("C", 1500.0), JPY);
    }
    assert Rounded(g) == g by {
      WholeAmount(1500);
    }
    TransfersFrom(SecondPayerList(), b, [Entry("A", 1500.0)], [Entry("C", 1500.0)], g);
  }

  /** A pays 900 and B pays 300, each split among A, B and C. */
  function TwoPayersList(): seq<Expense>
  {
    [Shared("1", "A", 900.0, ["A", "B", "C"]), Shared("2", "B", 300.0, ["A", "B", "C"])]
  }

  /** The nets of the two-payer list: A +500, B -100, C -400, in the order
      the names were first seen. */
  lemma TwoPayersTable()
    ensures Accumulate(TwoPayersList()) == [Entry("A", 500.0), Entry("B", -100.0), Entry("C", -400.0)]
  {
    var es := TwoPayersList();
    var ps := ["A", "B", "C"];
    var b1 := [Entry("A", 600.0), Entry("B", -300.0), Entry("C", -300.0)];
    var b := [Entry("A", 500.0), Entry("B", -100.0), Entry("C", -400.0)];
    assert Share(es[0]) == 300.0 && Share(es[1]) == 100.0;
    assert Adjust([], "A", 900.0) == [Entry("A", 900.0)];
    assert Debit([Entry("A", 900.0)], ps, 300.0) == b1 by {
      assert Adjust([Entry("A", 900.0)], "A", -300.0) == [Entry("A", 600.0)];
      assert Adjust([Entry("A", 600.0)], "B", -300.0) == [Entry("A", 600.0), Entry("B", -300.0)];
      assert Adjust([Entry("A", 600.0), Entry("B", -300.0)], "C", -300.0) == b1;
      assert ps[1..][1..] == ["C"];
    }
    assert ApplyExpense([], es[0]) == b1;
    var credited := [Entry("A", 600.0), Entry("B", 0.0), Entry("C", -300.0)];
    assert Adjust(b1, "B", 300.0) == credited;
    assert Debit(credited, ps, 100.0) == b by {
      assert Adjust(credited, "A", -100.0) == [Entry("A", 500.0), Entry("B", 0.0), Entry("C", -300.0)];
      assert Adjust([Entry("A", 500.0), Entry("B", 0.0), Entry("C", -300.0)], "B", -100.0)
             == [Entry("A", 500.0), Entry("B", -100.0), Entry("C", -300.0)];
      assert Adjust([Entry("A", 500.0), Entry("B", -100.0), Entry("C", -300.0)], "C", -100.0) == b;
      assert ps[1..][1..] == ["C"];
    }
    assert ApplyExpense(b1, es[1]) == b;
  }

  /** A is the only creditor. */
  lemma TwoPayersCreditors()
    ensures SortDesc(Owed([Entry("A", 500.0), Entry("B", -100.0), Entry("C", -400.0)])) == [Entry("A", 500.0)]
  {
    OwedThree(Entry("A", 500.0), Entry("B", -100.0), Entry("C", -400.0));
    OwedTwo(Entry("B", -100.0), Entry("C", -400.0));
    SortOne(Entry("A", 500.0));
  }

  /** C, owing more, is the first debtor. */
  lemma TwoPayersDebtors()
    ensures SortDesc(Owing([Entry("A", 500.0), Entry("B", -100.0), Entry("C", -400.0)])) == [Entry("C", 400.0), Entry("B", 100.0)]
  {
    OwingThree(Entry("A", 500.0), Entry("B", -100.0), Entry("C", -400.0));
    OwingTwo(Entry("B", -100.0), Entry("C", -400.0));
    SortTwo(Entry("B", 100.0), Entry("C", 400.0));
  }

  /** C pays A all of its 400, which leaves A owed 100, which B pays. */
  lemma TwoPayersWalk()
    ensures Greedy([Entry("A", 500.0)], [Entry("C", 400.0), Entry("B", 100.0)], JPY)
            == [DebtSummary("C", "A", 400.0, JPY), DebtSummary("B", "A", 100.0, JPY)]
  {
    assert Reduce(Entry("A", 500.0), 400.0, []) == [Entry("A", 100.0)];
    assert Reduce(Entry("C", 400.0), 400.0, [Entry("B", 100.0)]) == [Entry("B", 100.0)];
    EvenPair(Entry("A", 100.0), Entry("B", 100.0), JPY);
  }

  /** C, the larger debtor, pays A first, then B pays A the rest. */
  lemma TwoPayers()
    ensures Transfers(TwoPayersList()) == [DebtSummary("C", "A", 400.0, JPY), DebtSummary("B", "A", 100.0, JPY)]
  {
    TwoPayersTable();
    TwoPayersCreditors();
    TwoPayersDebtors();
    TwoPayersWalk();
    WholeAmount(400);
    WholeAmount(100);
    TransfersFrom(TwoPayersList(), [Entry("A", 500.0), Entry("B", -100.0), Entry("C", -400.0)],
                  [Entry("A", 500.0)], [Entry("C", 400.0), Entry("B", 100.0)],
                  [DebtSummary("C", "A", 400.0, JPY), DebtSummary("B", "A", 100.0, JPY)]);
  }

  /** A pays for nobody but themself: nothing to settle. */
  lemma SelfOnly()
    ensures Transfers([Shared("1", "A", 500.0, ["A"])]) == []
  {
    var e := Shared("1", "A", 500.0, ["A"]);
    assert Adjust([], "A", 500.0) == [Entry("A", 500.0)];
    assert Adjust([Entry("A", 500.0)], "A", -500.0) == [Entry("A", 0.0)];
    assert ApplyExpense([], e) == [Entry("A", 0.0)];
    assert Accumulate([e]) == [Entry("A", 0.0)];
    assert Owed([Entry("A", 0.0)]) == [];
  }

  /** A pays 0.03 split among A, B and C.  B and C each owe exactly the
      tolerance, so neither counts as a debtor, and A, owed 0.02, is never
      paid: the greedy walk stops with a balance above the tolerance
      unsettled. */
  lemma DustLeftUnsettled()
    ensures Transfers([Shared("1", "A", 0.03, ["A", "B", "C"])]) == []
    ensures Net([Shared("1", "A", 0.03, ["A", "B", "C"])], "A") == 0.02
  {
    var es := [Shared("1", "A", 0.03, ["A", "B", "C"])];
    var ps := ["A", "B", "C"];
    var b := [Entry("A", 0.02), Entry("B", -0.01), Entry("C", -0.01)];
    assert Share(es[0]) == 0.01;
    assert Debit([Entry("A", 0.03)], ps, 0.01) == b by {
      assert Adjust([Entry("A", 0.03)], "A", -0.01) == [Entry("A", 0.02)];
      assert Adjust([Entry("A", 0.02)], "B", -0.01) == [Entry("A", 0.02), Entry("B", -0.01)];
      assert Adjust([Entry("A", 0.02), Entry("B", -0.01)], "C", -0.01) == b;
      assert ps[1..][1..] == ["C"];
    }
    assert ApplyExpense([], es[0]) == b;
    assert Accumulate(es) == b;
    assert Lookup(b, "A") == 0.02;
    assert Owing(b) == [] by {
      assert Owing(b[1..]) == [];
    }
  }

  /** A pays 3000 yen for A and B; B pays 1500 TWD for A and B. */
  function MixedList(): seq<Expense>
  {
    [ Expense("1", "A", 3000.0, JPY, "", "", true, ["A", "B"]),
      Expense("2", "B", 1500.0, TWD, "", "", true, ["A", "B"]) ]
  }

  /** Pooled, the yen and TWD shares offset each other: A +750, B -750. */
  lemma MixedTable()
    ensures Accumulate(MixedList()) == [Entry("A", 750.0), Entry("B", -750.0)]
  {
    var es := MixedList();
    var b1 := [Entry("A", 1500.0), Entry("B", -1500.0)];
    assert Share(es[0]) == 1500.0 && Share(es[1]) == 750.0;
    assert ApplyExpense([], es[0]) == b1 by {
      assert Adjust([], "A", 3000.0) == [Entry("A", 3000.0)];
      assert Adjust([Entry("A", 3000.0)], "A", -1500.0) == [Entry("A", 1500.0)];
      assert Adjust([Entry("A", 1500.0)], "B", -1500.0) == b1;
      assert Debit([Entry("A", 3000.0)], ["A", "B"], 1500.0) == b1;
    }
    assert ApplyExpense(b1, es[1]) == [Entry("A", 750.0), Entry("B", -750.0)] by {
      assert Adjust(b1, "B", 1500.0) == [Entry("A", 1500.0), Entry("B", 0.0)];
      assert Adjust([Entry("A", 1500.0), Entry("B", 0.0)], "A", -750.0) == [Entry("A", 750.0), Entry("B", 0.0)];
      assert Adjust([Entry("A", 750.0), Entry("B", 0.0)], "B", -750.0) == [Entry("A", 750.0), Entry("B", -750.0)];
      assert Debit([Entry("A", 1500.0), Entry("B", 0.0)], ["A", "B"], 750.0) == [Entry("A", 750.0), Entry("B", -750.0)];
    }
  }

  /** In the pooled table A is the only creditor and B the only
      debtor. */
  lemma MixedSides()
    ensures SortDesc(Owed([Entry("A", 750.0), Entry("B", -750.0)])) == [Entry("A", 750.0)]
    ensures SortDesc(Owing([Entry("A", 750.0), Entry("B", -750.0)])) == [Entry("B", 750.0)]
  {
    OwedTwo(Entry("A", 750.0), Entry("B", -750.0));
    OwingTwo(Entry("A", 750.0), Entry("B", -750.0));
    SortOne(Entry("A", 750.0));
    SortOne(Entry("B", 750.0));
  }

  /** As written: the routine pools both currencies and reports one yen
      transfer of 750, though B owes A 1500 yen and A owes B 750 TWD. */
  lemma MixedPooled()
    ensures Transfers(MixedList()) == [DebtSummary("B", "A", 750.0, JPY)]
  {
    var b := [Entry("A", 750.0), Entry("B", -750.0)];
    MixedTable();
    MixedSides();
    EvenPair(Entry("A", 750.0), Entry("B", 750.0), JPY);
    WholeAmount(750);
    TransfersFrom(MixedList(), b, [Entry("A", 750.0)], [Entry("B", 750.0)], [DebtSummary("B", "A", 750.0, JPY)]);
  }

  /** The table of the yen expense alone. */
  lemma YenTable()
    ensures Accumulate([MixedList()[0]]) == [Entry("A", 1500.0), Entry("B", -1500.0)]
  {
    var e := MixedList()[0];
    var b := [Entry("A", 1500.0), Entry("B", -1500.0)];
    assert Share(e) == 1500.0;
    assert Debit([Entry("A", 3000.0)], ["A", "B"], 1500.0) == b by {
      assert Adjust([Entry("A", 3000.0)], "A", -1500.0) == [Entry("A", 1500.0)];
      assert Adjust([Entry("A", 1500.0)], "B", -1500.0) == b;
    }
    assert ApplyExpense([], e) == b;
  }

  /** The table of the TWD expense alone: B, the payer, comes first. */
  lemma TwdTable()
    ensures Accumulate([MixedList()[1]]) == [Entry("B", 750.0), Entry("A", -750.0)]
  {
    var e := MixedList()[1];
    var b := [Entry("B", 750.0), Entry("A", -750.0)];
    assert Share(e) == 750.0;
    assert Debit([Entry("B", 1500.0)], ["A", "B"], 750.0) == b by {
      assert Adjust([Entry("B", 1500.0)], "A", -750.0) == [Entry("B", 1500.0), Entry("A", -750.0)];
      assert Adjust([Entry("B", 1500.0), Entry("A", -750.0)], "B", -750.0) == b;
    }
    assert ApplyExpense([], e) == b;
  }

  /** The yen expense alone: B owes A 1500 yen. */
  lemma YenAlone()
    ensures Transfers([MixedList()[0]]) == [DebtSummary("B", "A", 1500.0, JPY)]
  {
    var e := MixedList()[0];
    var b := [Entry("A", 1500.0), Entry("B", -1500.0)];
    YenTable();
    OwedTwo(b[0], b[1]);
    OwingTwo(b[0], b[1]);
    SortOne(Entry("A", 1500.0));
    SortOne(Entry("B", 1500.0));
    EvenPair(Entry("A", 1500.0), Entry("B", 1500.0), JPY);
    WholeAmount(1500);
    TransfersFrom([e], b, [Entry("A", 1500.0)], [Entry("B", 1500.0)], [DebtSummary("B", "A", 1500.0, JPY)]);
  }

  /** The TWD expense alone: A owes B 750 TWD. */
  lemma TwdAlone()
    ensures Transfers([MixedList()[1]]) == [DebtSummary("A", "B", 750.0, TWD)]
  {
    var e := MixedList()[1];
    var b := [Entry("B", 750.0), Entry("A", -750.0)];
    TwdTable();
    OwedTwo(b[0], b[1]);
    OwingTwo(b[0], b[1]);
    SortOne(Entry("B", 750.0));
    SortOne(Entry("A", 750.0));
    EvenPair(Entry("B", 750.0), Entry("A", 750.0), TWD);
    WholeAmount(750);
    TransfersFrom([e], b, [Entry("B", 750.0)], [Entry("A", 750.0)], [DebtSummary("A", "B", 750.0, TWD)]);
  }

  /** Corrected: settled per currency, A pays B 750 TWD and B pays A 1500
      yen. */
  lemma MixedSeparated()
    ensures TransfersByCurrency(MixedList())
            == [DebtSummary("A", "B", 750.0, TWD), DebtSummary("B", "A", 1500.0, JPY)]
  {
    MixedGroups();
    YenAlone();
    TwdAlone();
  }

  /** Each currency's group holds one expense. */
  lemma MixedGroups()
    ensures Only(MixedList(), TWD) == [MixedList()[1]]
    ensures Only(MixedList(), JPY) == [MixedList()[0]]
  {
    var es := MixedList();
    assert Only(es[1..], TWD) == [es[1]];
    assert Only(es[1..], JPY) == [];
  }
}
