/** The greedy matching of creditors with debtors.

    `Greedy` is the matching as a recursive definition on the two lists;
    `Match` is the two-cursor loop of the application, which lowers the
    balance of the current creditor and debtor in place and moves a cursor
    on once its party is within the tolerance.  `Match` emits each amount
    rounded to whole cents, while the balances go down by the unrounded
    amount.
 */
module Matching {
  import opened Types
  import opened Ledger
  import opened Settlement

  /** Half of the smallest currency unit: the most rounding to cents moves
      an amount. */
  const HalfCent: real := 0.005

  /** Every party of the list still holds at least the tolerance. */
  predicate Funded(s: seq<Entry>)
  {
    forall k :: 0 <= k < |s| ==> s[k].bal >= Tolerance
  }

  /** A party after paying or receiving `amount`: it leaves the list once
      its balance is below the tolerance, and otherwise stays at the front
      with the reduced balance. */
  function Reduce(p: Entry, amount: real, rest: seq<Entry>): seq<Entry>
  {
    if p.bal - amount < Tolerance then rest else [Entry(p.name, p.bal - amount)] + rest
  }

  /** The greedy matching: the head debtor pays the head creditor the
      smaller of their two balances, and both heads are reduced by that
      amount, until one list is empty. */
  function Greedy(cs: seq<Entry>, ds: seq<Entry>, currency: Currency): seq<DebtSummary>
    decreases |cs| + |ds|
  {
    if |cs| == 0 || |ds| == 0 then []
    else
      var amount := Min(cs[0].bal, ds[0].bal);
      [DebtSummary(ds[0].name, cs[0].name, amount, currency)]
        + Greedy(Reduce(cs[0], amount, cs[1..]), Reduce(ds[0], amount, ds[1..]), currency)
  }

  /** Total received by `n` over the transfers. */
  function Received(ts: seq<DebtSummary>, n: string): real
  {
    if |ts| == 0 then 0.0
    else (if ts[0].to == n then ts[0].amount else 0.0) + Received(ts[1..], n)
  }

  /** Total paid by `n` over the transfers. */
  function Paid(ts: seq<DebtSummary>, n: string): real
  {
    if |ts| == 0 then 0.0
    else (if ts[0].from == n then ts[0].amount else 0.0) + Paid(ts[1..], n)
  }

  /** Nothing is received by a name no transfer goes to, and nothing paid
      by a name no transfer comes from. */
  lemma {:induction false} UntouchedName(ts: seq<DebtSummary>, n: string)
    ensures (forall t :: t in ts ==> t.to != n) ==> Received(ts, n) == 0.0
    ensures (forall t :: t in ts ==> t.from != n) ==> Paid(ts, n) == 0.0
  {
    if |ts| > 0 {
      UntouchedName(ts[1..], n);
      assert forall t :: t in ts[1..] ==> t in ts;
    }
  }

  /** `x` rounded to whole cents, halves rounded up: the value that
      `toFixed(2)` prints for a non-negative amount, read back as a
      number. */
  function Cents(x: real): (r: real)
    ensures x - HalfCent < r <= x + HalfCent
    ensures IsCents(r)
    ensures x >= Tolerance ==> r >= Tolerance
  {
    var n := (x * 100.0 + 0.5).Floor;
    assert (n as real) * 0.01 * 100.0 == n as real;
    (n as real) * 0.01
  }

  /** A whole number of cents. */
  predicate IsCents(x: real)
  {
    (x * 100.0).Floor as real == x * 100.0
  }

  /** Rounding an amount that is already whole cents changes nothing. */
  lemma {:induction false} CentsKeepsCents(x: real)
    requires IsCents(x)
    ensures Cents(x) == x
  {
    var n := (x * 100.0).Floor;
    assert (x * 100.0 + 0.5).Floor == n;
  }

  /** The transfers with each amount rounded to whole cents. */
  function Rounded(ts: seq<DebtSummary>): seq<DebtSummary>
  {
    if |ts| == 0 then []
    else [ts[0].(amount := Cents(ts[0].amount))] + Rounded(ts[1..])
  }

  /** The transfers with every currency tag replaced by `c`. */
  function Retag(ts: seq<DebtSummary>, c: Currency): (r: seq<DebtSummary>)
    ensures |r| == |ts|
    ensures forall k :: 0 <= k < |ts| ==> r[k] == ts[k].(currency := c)
  {
    if |ts| == 0 then [] else [ts[0].(currency := c)] + Retag(ts[1..], c)
  }

  /** The walk does not depend on the tag: walking with another currency
      gives the same transfers tagged with that currency. */
  lemma {:induction false} GreedyRetag(cs: seq<Entry>, ds: seq<Entry>, c1: Currency, c2: Currency)
    ensures Greedy(cs, ds, c2) == Retag(Greedy(cs, ds, c1), c2)
    decreases |cs| + |ds|
  {
    if |cs| > 0 && |ds| > 0 {
      var amount := Min(cs[0].bal, ds[0].bal);
      var cs', ds' := Reduce(cs[0], amount, cs[1..]), Reduce(ds[0], amount, ds[1..]);
      GreedyRetag(cs', ds', c1, c2);
    }
  }

  /** Rounding and retagging commute. */
  lemma {:induction false} RoundedRetag(ts: seq<DebtSummary>, c: Currency)
    ensures Rounded(Retag(ts, c)) == Retag(Rounded(ts), c)
  {
    if |ts| > 0 {
      RoundedRetag(ts[1..], c);
      assert Retag(ts, c)[1..] == Retag(ts[1..], c);
      assert Rounded(ts)[1..] == Rounded(ts[1..]);
    }
  }

  /** Rounding keeps every transfer's parties and currency, and moves its
      amount by at most half a cent. */
  lemma {:induction false} RoundedTransfers(ts: seq<DebtSummary>)
    ensures |Rounded(ts)| == |ts|
    ensures forall k :: 0 <= k < |ts| ==>
              && Rounded(ts)[k].from == ts[k].from && Rounded(ts)[k].to == ts[k].to
              && Rounded(ts)[k].currency == ts[k].currency
              && Rounded(ts)[k].amount == Cents(ts[k].amount)
  {
    if |ts| > 0 {
      RoundedTransfers(ts[1..]);
      var r := Rounded(ts);
      assert r[1..] == Rounded(ts[1..]);
    }
  }

  /** What a member receives or pays over the rounded transfers differs
      from the unrounded totals by at most half a cent per transfer. */
  lemma {:induction false} RoundedTotals(ts: seq<DebtSummary>, n: string)
    ensures Received(ts, n) - HalfCent * (|ts| as real) <= Received(Rounded(ts), n)
                                                        <= Received(ts, n) + HalfCent * (|ts| as real)
    ensures Paid(ts, n) - HalfCent * (|ts| as real) <= Paid(Rounded(ts), n)
                                                    <= Paid(ts, n) + HalfCent * (|ts| as real)
  {
    if |ts| > 0 {
      RoundedTotals(ts[1..], n);
      var r := Rounded(ts);
      assert r[1..] == Rounded(ts[1..]);
    }
  }

  /** Reducing the head of a list keeps every party funded and adds no
      name. */
  lemma {:induction false} ReduceShape(p: Entry, amount: real, rest: seq<Entry>)
    requires Funded(rest)
    ensures Funded(Reduce(p, amount, rest))
    ensures forall n :: n in Names(Reduce(p, amount, rest)) ==> n == p.name || n in Names(rest)
    ensures |Reduce(p, amount, rest)| <= |rest| + 1
  {
    var r := Reduce(p, amount, rest);
    if p.bal - amount >= Tolerance {
      assert r[1..] == rest;
      assert Names(r) == [p.name] + Names(rest);
    }
  }

  /** Reducing the head of a unique-name list keeps names unique, lowers
      the head's balance by the amount, or to nothing once it leaves, and
      leaves every other balance alone. */
  lemma {:induction false} ReduceLookup(p: Entry, amount: real, rest: seq<Entry>)
    requires UniqueNames([p] + rest)
    ensures UniqueNames(Reduce(p, amount, rest))
    ensures forall n :: Lookup(Reduce(p, amount, rest), n)
                        == if n != p.name then Lookup(rest, n)
                           else if p.bal - amount < Tolerance then 0.0
                           else p.bal - amount
  {
    UniqueCons(p, rest);
    LookupAbsent(rest, p.name);
    var r := Reduce(p, amount, rest);
    if p.bal - amount >= Tolerance {
      UniqueCons(Entry(p.name, p.bal - amount), rest);
      assert r[1..] == rest;
    }
  }

  /** Every transfer of the matching carries the currency and at least the
      tolerance, and runs from a debtor of the list to a creditor of the
      list. */
  lemma {:induction false} GreedyRouted(cs: seq<Entry>, ds: seq<Entry>, currency: Currency)
    requires Funded(cs) && Funded(ds)
    ensures forall t :: t in Greedy(cs, ds, currency) ==>
              && t.currency == currency && t.amount >= Tolerance
              && t.to in Names(cs) && t.from in Names(ds)
    decreases |cs| + |ds|
  {
    if |cs| > 0 && |ds| > 0 {
      var amount := Min(cs[0].bal, ds[0].bal);
      var cs', ds' := Reduce(cs[0], amount, cs[1..]), Reduce(ds[0], amount, ds[1..]);
      ReduceShape(cs[0], amount, cs[1..]);
      ReduceShape(ds[0], amount, ds[1..]);
      GreedyRouted(cs', ds', currency);
      assert Names(cs) == [cs[0].name] + Names(cs[1..]);
      assert Names(ds) == [ds[0].name] + Names(ds[1..]);
    }
  }

  /** No balance read from a funded list is negative. */
  lemma {:induction false} FundedLookup(s: seq<Entry>, n: string)
    requires Funded(s)
    ensures Lookup(s, n) >= 0.0
  {
    if |s| > 0 && s[0].name != n {
      FundedLookup(s[1..], n);
    }
  }

  /** Nobody receives more than their balance among the creditors or pays
      more than their debt among the debtors, and names on neither list
      take no part. */
  lemma {:induction false} GreedyBounded(cs: seq<Entry>, ds: seq<Entry>, currency: Currency)
    requires UniqueNames(cs) && UniqueNames(ds)
    requires Funded(cs) && Funded(ds)
    ensures forall n :: 0.0 <= Received(Greedy(cs, ds, currency), n) <= Lookup(cs, n)
    ensures forall n :: 0.0 <= Paid(Greedy(cs, ds, currency), n) <= Lookup(ds, n)
    decreases |cs| + |ds|
  {
    if |cs| == 0 || |ds| == 0 {
      forall n
        ensures Lookup(cs, n) >= 0.0 && Lookup(ds, n) >= 0.0
      {
        FundedLookup(cs, n);
        FundedLookup(ds, n);
      }
    } else {
      var p, q := cs[0], ds[0];
      var amount := Min(p.bal, q.bal);
      var cs', ds' := Reduce(p, amount, cs[1..]), Reduce(q, amount, ds[1..]);
      assert cs == [p] + cs[1..] && ds == [q] + ds[1..];
      ReduceShape(p, amount, cs[1..]);
      ReduceShape(q, amount, ds[1..]);
      ReduceLookup(p, amount, cs[1..]);
      ReduceLookup(q, amount, ds[1..]);
      GreedyBounded(cs', ds', currency);
      var g := Greedy(cs, ds, currency);
      assert g[1..] == Greedy(cs', ds', currency);
    }
  }

  /** When the matching stops, every creditor or every debtor has been
      settled to within the tolerance. */
  lemma {:induction false} GreedySettles(cs: seq<Entry>, ds: seq<Entry>, currency: Currency)
    requires UniqueNames(cs) && UniqueNames(ds)
    requires Funded(cs) && Funded(ds)
    ensures var g := Greedy(cs, ds, currency);
            || (forall n :: Lookup(cs, n) - Received(g, n) < Tolerance)
            || (forall n :: Lookup(ds, n) - Paid(g, n) < Tolerance)
    decreases |cs| + |ds|
  {
    if |cs| > 0 && |ds| > 0 {
      var p, q := cs[0], ds[0];
      var amount := Min(p.bal, q.bal);
      var cs', ds' := Reduce(p, amount, cs[1..]), Reduce(q, amount, ds[1..]);
      assert cs == [p] + cs[1..] && ds == [q] + ds[1..];
      ReduceShape(p, amount, cs[1..]);
      ReduceShape(q, amount, ds[1..]);
      ReduceLookup(p, amount, cs[1..]);
      ReduceLookup(q, amount, ds[1..]);
      GreedySettles(cs', ds', currency);
      GreedyBounded(cs', ds', currency);
      var g, g' := Greedy(cs, ds, currency), Greedy(cs', ds', currency);
      assert g[1..] == g';
      // Each balance less what was moved for it is the same before and
      // after the first transfer, except for a party that has just left
      // its list, which is then within the tolerance.
      assert (forall n :: Lookup(cs', n) - Received(g', n) < Tolerance) || (forall n :: Lookup(ds', n) - Paid(g', n) < Tolerance);
      if forall n :: Lookup(cs', n) - Received(g', n) < Tolerance {
        forall n
          ensures Lookup(cs, n) - Received(g, n) < Tolerance
        {
          assert Received(g, n) == (if n == p.name then amount else 0.0) + Received(g', n);
          assert Lookup(cs, n) == if n == p.name then p.bal else Lookup(cs[1..], n);
        }
      } else {
        assert forall n :: Lookup(ds', n) - Paid(g', n) < Tolerance;
        forall n
          ensures Lookup(ds, n) - Paid(g, n) < Tolerance
        {
          assert Paid(g, n) == (if n == q.name then amount else 0.0) + Paid(g', n);
          assert Lookup(ds, n) == if n == q.name then q.bal else Lookup(ds[1..], n);
        }
      }
    } else if |cs| == 0 {
      forall n
        ensures Lookup(cs, n) - Received(Greedy(cs, ds, currency), n) < Tolerance
      {
      }
    } else {
      forall n
        ensures Lookup(ds, n) - Paid(Greedy(cs, ds, currency), n) < Tolerance
      {
      }
    }
  }

  /** The matching emits fewer transfers than there are parties: each
      transfer takes at least one party off its list, and the last one
      takes off both. */
  lemma {:induction false} GreedyLength(cs: seq<Entry>, ds: seq<Entry>, currency: Currency)
    ensures var g := Greedy(cs, ds, currency);
            |g| == 0 || |g| < |cs| + |ds|
    decreases |cs| + |ds|
  {
    if |cs| > 0 && |ds| > 0 {
      var amount := Min(cs[0].bal, ds[0].bal);
      var cs', ds' := Reduce(cs[0], amount, cs[1..]), Reduce(ds[0], amount, ds[1..]);
      GreedyLength(cs', ds', currency);
    }
  }

  /** Lowering the balance under a cursor, and moving the cursor on once it
      is below the tolerance, reduces the head of what is left of the
      list. */
  lemma {:induction false} CursorStep(s: seq<Entry>, i: int, amount: real)
    requires 0 <= i < |s|
    ensures var s' := s[i := Entry(s[i].name, s[i].bal - amount)];
            var i' := if s'[i].bal < Tolerance then i + 1 else i;
            s'[i'..] == Reduce(s[i], amount, s[i + 1..])
  {
    var s' := s[i := Entry(s[i].name, s[i].bal - amount)];
    assert s'[i + 1..] == s[i + 1..];
    assert s'[i..] == [s'[i]] + s[i + 1..];
  }

  /** One step of the matching on the parts of the lists the cursors have
      not passed. */
  lemma {:induction false} GreedyCursor(cs: seq<Entry>, ds: seq<Entry>, i: int, j: int, currency: Currency)
    requires 0 <= i < |cs| && 0 <= j < |ds|
    ensures var amount := Min(cs[i].bal, ds[j].bal);
            Greedy(cs[i..], ds[j..], currency)
              == [DebtSummary(ds[j].name, cs[i].name, amount, currency)]
                 + Greedy(Reduce(cs[i], amount, cs[i + 1..]), Reduce(ds[j], amount, ds[j + 1..]), currency)
  {
    assert cs[i..][1..] == cs[i + 1..] && ds[j..][1..] == ds[j + 1..];
  }

  /** Concatenation is associative; stated so that a proof can name the
      regrouping it needs. */
  lemma {:induction false} AppendAssoc<T>(a: seq<T>, b: seq<T>, c: seq<T>)
    ensures (a + b) + c == a + (b + c)
  {
  }

  /** Rounding a list with one more transfer at the end rounds that
      transfer at the end. */
  lemma {:induction false} RoundedAppend(ts: seq<DebtSummary>, t: DebtSummary)
    ensures Rounded(ts + [t]) == Rounded(ts) + [t.(amount := Cents(t.amount))]
  {
    if |ts| > 0 {
      RoundedAppend(ts[1..], t);
      assert (ts + [t])[1..] == ts[1..] + [t];
    }
  }

  /** The two-cursor walk of the application.  The current debtor pays the
      current creditor the smaller of their two balances, rounded to cents
      in the emitted transfer; both balances go down by the unrounded
      amount; a cursor moves on once its party is below the tolerance; the
      walk stops when either list is used up.  The result is the recursive
      matching, rounded. */
  method Match(creditors: seq<Entry>, debtors: seq<Entry>, currency: Currency)
    returns (ts: seq<DebtSummary>)
    ensures ts == Rounded(Greedy(creditors, debtors, currency))
  {
    var cs, ds := creditors, debtors;
    ts := [];
    // The transfers with their amounts before rounding.
    ghost var exact: seq<DebtSummary> := [];
    var i, j := 0, 0;
    assert cs[i..] == creditors && ds[j..] == debtors;
    while i < |cs| && j < |ds|
      invariant |cs| == |creditors| && |ds| == |debtors|
      invariant 0 <= i <= |cs| && 0 <= j <= |ds|
      invariant exact + Greedy(cs[i..], ds[j..], currency) == Greedy(creditors, debtors, currency)
      invariant ts == Rounded(exact)
      decreases |cs| - i + |ds| - j
    {
      var amount := Min(cs[i].bal, ds[j].bal);
      GreedyCursor(cs, ds, i, j, currency);
      CursorStep(cs, i, amount);
      CursorStep(ds, j, amount);
      var t := DebtSummary(ds[j].name, cs[i].name, amount, currency);
      RoundedAppend(exact, t);
      ghost var before := exact;
      exact := exact + [t];
      ts := ts + [DebtSummary(ds[j].name, cs[i].name, Cents(amount), currency)];
      cs := cs[i := Entry(cs[i].name, cs[i].bal - amount)];
      ds := ds[j := Entry(ds[j].name, ds[j].bal - amount)];
      if cs[i].bal < Tolerance {
        i := i + 1;
      }
      if ds[j].bal < Tolerance {
        j := j + 1;
      }
      AppendAssoc(before, [t], Greedy(cs[i..], ds[j..], currency));
    }
    assert Greedy(cs[i..], ds[j..], currency) == [];
    assert exact + [] == exact;
  }
}
