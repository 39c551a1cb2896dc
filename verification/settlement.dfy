/** Settlement of the net-balance table: creditors and debtors are picked
    out with a tolerance of one hundredth, each side is sorted largest
    first, and a greedy two-cursor walk pairs the current debtor with the
    current creditor until one side runs out.

    As in the application, balances are pooled across currencies and
    every transfer is tagged with the currency of the first expense (TWD
    when there is none).
 */
module Settlement {
  import opened Types
  import opened Ledger
  import opened Ordering

  /** Balances within one hundredth of zero count as settled. */
  const Tolerance: real := 0.01

  function Min(x: real, y: real): (r: real)
    ensures r <= x && r <= y
    ensures r == x || r == y
  {
    if x <= y then x else y
  }

  /** The entries owed money, in table order. */
  function Owed(b: seq<Entry>): seq<Entry>
  {
    if |b| == 0 then [] else (if b[0].bal > Tolerance then [b[0]] else []) + Owed(b[1..])
  }

  /** `Owed` keeps exactly the entries owed more than the tolerance. */
  lemma {:induction false} OwedMembers(b: seq<Entry>)
    ensures forall p :: p in Owed(b) <==> p in b && p.bal > Tolerance
  {
    if |b| > 0 {
      OwedMembers(b[1..]);
      assert b == [b[0]] + b[1..];
    }
  }

  /** The entries owing money, in table order, each with the amount owed
      as a positive balance. */
  function Owing(b: seq<Entry>): seq<Entry>
  {
    if |b| == 0 then []
    else (if b[0].bal < -Tolerance then [Entry(b[0].name, -b[0].bal)] else []) + Owing(b[1..])
  }

  /** `Owing` keeps exactly the entries owing more than the tolerance,
      negated. */
  lemma {:induction false} OwingMembers(b: seq<Entry>)
    ensures forall p :: p in Owing(b) <==> Entry(p.name, -p.bal) in b && p.bal > Tolerance
  {
    if |b| > 0 {
      OwingMembers(b[1..]);
      assert b == [b[0]] + b[1..];
      forall p
        ensures p in Owing(b) <==> Entry(p.name, -p.bal) in b && p.bal > Tolerance
      {
        assert Entry(p.name, -p.bal) == b[0] <==> p == Entry(b[0].name, -b[0].bal);
      }
    }
  }

  /** Each entry with its balance negated. */
  function Negated(s: seq<Entry>): (r: seq<Entry>)
    ensures |r| == |s|
    ensures forall k :: 0 <= k < |s| ==> r[k] == Entry(s[k].name, -s[k].bal)
  {
    if |s| == 0 then [] else [Entry(s[0].name, -s[0].bal)] + Negated(s[1..])
  }

  /** The creditor filter keeps the entries of each balance above the
      tolerance in table order. */
  lemma {:induction false} OwedWithBal(b: seq<Entry>, v: real)
    requires v > Tolerance
    ensures WithBal(Owed(b), v) == WithBal(b, v)
  {
    if |b| > 0 {
      OwedWithBal(b[1..], v);
      assert WithBal(b, v) == (if b[0].bal == v then [b[0]] else []) + WithBal(b[1..], v);
      if b[0].bal > Tolerance {
        assert Owed(b) == [b[0]] + Owed(b[1..]);
        WithBalCons(b[0], Owed(b[1..]), v);
      } else {
        assert Owed(b) == Owed(b[1..]);
      }
    }
  }

  /** The debtor filter keeps the entries of each balance below minus the
      tolerance in table order, negated. */
  lemma {:induction false} OwingWithBal(b: seq<Entry>, v: real)
    requires v > Tolerance
    ensures WithBal(Owing(b), v) == Negated(WithBal(b, -v))
  {
    if |b| > 0 {
      OwingWithBal(b[1..], v);
      var rest := WithBal(b[1..], -v);
      if b[0].bal < -Tolerance {
        assert Owing(b) == [Entry(b[0].name, -b[0].bal)] + Owing(b[1..]);
        WithBalCons(Entry(b[0].name, -b[0].bal), Owing(b[1..]), v);
      } else {
        assert Owing(b) == Owing(b[1..]);
      }
      if b[0].bal == -v {
        assert WithBal(b, -v) == [b[0]] + rest;
        assert ([b[0]] + rest)[1..] == rest;
      } else {
        assert WithBal(b, -v) == rest;
      }
    }
  }

  /** Number of members whose balance lies outside the tolerance. */
  function Unsettled(b: seq<Entry>): nat
  {
    if |b| == 0 then 0
    else (if b[0].bal > Tolerance || b[0].bal < -Tolerance then 1 else 0) + Unsettled(b[1..])
  }

  /** Creditors, largest balance first, ties in table order: exactly the
      entries owed more than the tolerance. */
  function Creditors(b: seq<Entry>): (c: seq<Entry>)
    ensures Descending(c)
    ensures forall p :: p in c <==> p in b && p.bal > Tolerance
    ensures forall v :: v > Tolerance ==> WithBal(c, v) == WithBal(b, v)
  {
    var c := SortDesc(Owed(b));
    CreditorTies(b);
    OwedMembers(b);
    assert forall p :: p in c <==> p in multiset(c);
    assert forall p :: p in Owed(b) <==> p in multiset(Owed(b));
    c
  }

  /** Debtors, largest debt first, ties in table order: exactly the entries
      owing more than the tolerance, with the debt as a positive balance. */
  function Debtors(b: seq<Entry>): (d: seq<Entry>)
    ensures Descending(d)
    ensures forall p :: p in d <==> Entry(p.name, -p.bal) in b && p.bal > Tolerance
    ensures forall v :: v > Tolerance ==> WithBal(d, v) == Negated(WithBal(b, -v))
  {
    var d := SortDesc(Owing(b));
    DebtorTies(b);
    OwingMembers(b);
    assert forall p :: p in d <==> p in multiset(d);
    assert forall p :: p in Owing(b) <==> p in multiset(Owing(b));
    d
  }

  /** Sorted creditors with equal balances keep their table order. */
  lemma {:induction false} CreditorTies(b: seq<Entry>)
    ensures forall v :: v > Tolerance ==> WithBal(SortDesc(Owed(b)), v) == WithBal(b, v)
  {
    forall v | v > Tolerance
      ensures WithBal(SortDesc(Owed(b)), v) == WithBal(b, v)
    {
      SortDescStable(Owed(b), v);
      OwedWithBal(b, v);
    }
  }

  /** Sorted debtors with equal debts keep their table order. */
  lemma {:induction false} DebtorTies(b: seq<Entry>)
    ensures forall v :: v > Tolerance ==> WithBal(SortDesc(Owing(b)), v) == Negated(WithBal(b, -v))
  {
    forall v | v > Tolerance
      ensures WithBal(SortDesc(Owing(b)), v) == Negated(WithBal(b, -v))
    {
      SortDescStable(Owing(b), v);
      OwingWithBal(b, v);
    }
  }

  /** A list whose balances all exceed the tolerance has no entry of a
      balance within it. */
  lemma {:induction false} WithBalOutside(s: seq<Entry>, v: real)
    requires forall p :: p in s ==> p.bal > Tolerance
    requires v <= Tolerance
    ensures WithBal(s, v) == []
  {
    if WithBal(s, v) != [] {
      WithBalMember(s, v, WithBal(s, v)[0]);
    }
  }

  /** The contract of `Creditors` leaves no freedom: any descending list
      holding exactly the entries owed more than the tolerance, with equal
      balances in table order, is the creditor list. */
  lemma {:induction false} CreditorsDetermined(b: seq<Entry>, c: seq<Entry>)
    requires Descending(c)
    requires forall p :: p in c <==> p in b && p.bal > Tolerance
    requires forall v :: v > Tolerance ==> WithBal(c, v) == WithBal(b, v)
    ensures c == Creditors(b)
  {
    forall v
      ensures WithBal(c, v) == WithBal(Creditors(b), v)
    {
      if v <= Tolerance {
        WithBalOutside(c, v);
        WithBalOutside(Creditors(b), v);
      }
    }
    StableDescendingUnique(c, Creditors(b));
  }

  /** Likewise, any descending list holding exactly the negated entries
      that owe more than the tolerance, with equal debts in table order, is
      the debtor list. */
  lemma {:induction false} DebtorsDetermined(b: seq<Entry>, d: seq<Entry>)
    requires Descending(d)
    requires forall p :: p in d <==> Entry(p.name, -p.bal) in b && p.bal > Tolerance
    requires forall v :: v > Tolerance ==> WithBal(d, v) == Negated(WithBal(b, -v))
    ensures d == Debtors(b)
  {
    forall v
      ensures WithBal(d, v) == WithBal(Debtors(b), v)
    {
      if v <= Tolerance {
        WithBalOutside(d, v);
        WithBalOutside(Debtors(b), v);
      }
    }
    StableDescendingUnique(d, Debtors(b));
  }

  /** Filtering keeps names unique and only keeps names of the table. */
  lemma {:induction false} OwedNames(b: seq<Entry>)
    ensures forall n :: n in Names(Owed(b)) ==> n in Names(b)
    ensures UniqueNames(b) ==> UniqueNames(Owed(b))
  {
    if |b| > 0 {
      var rest := Owed(b[1..]);
      OwedNames(b[1..]);
      assert Names(b) == [b[0].name] + Names(b[1..]);
      if b[0].bal > Tolerance {
        assert Owed(b) == [b[0]] + rest;
        assert Names([b[0]] + rest) == [b[0].name] + Names(rest);
        UniqueCons(b[0], rest);
      } else {
        assert Owed(b) == rest;
      }
      if UniqueNames(b) {
        UniqueTail(b);
      }
    }
  }

  /** Filtering and negating keeps names unique and only keeps names of
      the table. */
  lemma {:induction false} OwingNames(b: seq<Entry>)
    ensures forall n :: n in Names(Owing(b)) ==> n in Names(b)
    ensures UniqueNames(b) ==> UniqueNames(Owing(b))
  {
    if |b| > 0 {
      var rest := Owing(b[1..]);
      var x := Entry(b[0].name, -b[0].bal);
      OwingNames(b[1..]);
      assert Names(b) == [b[0].name] + Names(b[1..]);
      if b[0].bal < -Tolerance {
        assert Owing(b) == [x] + rest;
        assert Names([x] + rest) == [x.name] + Names(rest);
        UniqueCons(x, rest);
      } else {
        assert Owing(b) == rest;
      }
      if UniqueNames(b) {
        UniqueTail(b);
      }
    }
  }

  /** The creditors and debtors together are the unsettled members. */
  lemma {:induction false} UnsettledSplit(b: seq<Entry>)
    ensures |Creditors(b)| + |Debtors(b)| == Unsettled(b)
  {
    OwedOwingCount(b);
  }

  lemma {:induction false} OwedOwingCount(b: seq<Entry>)
    ensures |Owed(b)| + |Owing(b)| == Unsettled(b)
  {
    if |b| > 0 {
      OwedOwingCount(b[1..]);
    }
  }

  /** Creditor and debtor names are unique and come from the table. */
  lemma {:induction false} SidesUnique(b: seq<Entry>)
    requires UniqueNames(b)
    ensures UniqueNames(Creditors(b)) && UniqueNames(Debtors(b))
  {
    OwedNames(b);
    OwingNames(b);
    SortDescNames(Owed(b));
    SortDescNames(Owing(b));
  }

  /** A creditor's balance is the table's balance for its name. */
  lemma {:induction false} CreditorLookup(b: seq<Entry>, k: int)
    requires UniqueNames(b)
    requires 0 <= k < |Creditors(b)|
    ensures Lookup(b, Creditors(b)[k].name) == Creditors(b)[k].bal > Tolerance
  {
    var p := Creditors(b)[k];
    assert p in b;
    var q :| 0 <= q < |b| && b[q] == p;
    LookupEntry(b, q);
  }

  /** A debtor's balance is the negated table balance for its name. */
  lemma {:induction false} DebtorLookup(b: seq<Entry>, k: int)
    requires UniqueNames(b)
    requires 0 <= k < |Debtors(b)|
    ensures Lookup(b, Debtors(b)[k].name) == -Debtors(b)[k].bal < -Tolerance
  {
    var p := Debtors(b)[k];
    assert Entry(p.name, -p.bal) in b;
    var q :| 0 <= q < |b| && b[q] == Entry(p.name, -p.bal);
    LookupEntry(b, q);
  }

  /** Whoever is owed more than the tolerance is a creditor. */
  lemma {:induction false} CreditorOf(b: seq<Entry>, n: string) returns (k: int)
    requires UniqueNames(b)
    requires Lookup(b, n) > Tolerance
    ensures 0 <= k < |Creditors(b)| && Creditors(b)[k].name == n
  {
    if n !in Names(b) {
      LookupAbsent(b, n);
    }
    var q := NameIndex(b, n);
    LookupEntry(b, q);
    assert b[q] in Creditors(b);
    k :| 0 <= k < |Creditors(b)| && Creditors(b)[k] == b[q];
  }

  /** Whoever owes more than the tolerance is a debtor. */
  lemma {:induction false} DebtorOf(b: seq<Entry>, n: string) returns (k: int)
    requires UniqueNames(b)
    requires Lookup(b, n) < -Tolerance
    ensures 0 <= k < |Debtors(b)| && Debtors(b)[k].name == n
  {
    if n !in Names(b) {
      LookupAbsent(b, n);
    }
    var q := NameIndex(b, n);
    LookupEntry(b, q);
    var p := Entry(n, -b[q].bal);
    assert Entry(p.name, -p.bal) == b[q];
    assert p in Debtors(b);
    k :| 0 <= k < |Debtors(b)| && Debtors(b)[k] == p;
  }

  /** Reading a creditor's name from the creditor list gives its table
      balance, and reading any other name gives 0. */
  lemma {:induction false} CreditorsLookup(b: seq<Entry>)
    requires UniqueNames(b)
    ensures forall n :: Lookup(Creditors(b), n) == if Lookup(b, n) > Tolerance then Lookup(b, n) else 0.0
  {
    SidesUnique(b);
    forall n | n in Names(Creditors(b))
      ensures Lookup(b, n) > Tolerance
    {
      var k := NameIndex(Creditors(b), n);
      CreditorLookup(b, k);
    }
    forall n
      ensures Lookup(Creditors(b), n) == if Lookup(b, n) > Tolerance then Lookup(b, n) else 0.0
    {
      if Lookup(b, n) > Tolerance {
        var k := CreditorOf(b, n);
        CreditorLookup(b, k);
        LookupEntry(Creditors(b), k);
      } else {
        LookupAbsent(Creditors(b), n);
      }
    }
  }

  /** Reading a debtor's name from the debtor list gives its debt, and
      reading any other name gives 0. */
  lemma {:induction false} DebtorsLookup(b: seq<Entry>)
    requires UniqueNames(b)
    ensures forall n :: Lookup(Debtors(b), n) == if Lookup(b, n) < -Tolerance then -Lookup(b, n) else 0.0
  {
    SidesUnique(b);
    forall n | n in Names(Debtors(b))
      ensures Lookup(b, n) < -Tolerance
    {
      var k := NameIndex(Debtors(b), n);
      DebtorLookup(b, k);
    }
    forall n
      ensures Lookup(Debtors(b), n) == if Lookup(b, n) < -Tolerance then -Lookup(b, n) else 0.0
    {
      if Lookup(b, n) < -Tolerance {
        var k := DebtorOf(b, n);
        DebtorLookup(b, k);
        LookupEntry(Debtors(b), k);
      } else {
        LookupAbsent(Debtors(b), n);
      }
    }
  }

  /** Every creditor is owed, and every debtor owes, at least the
      tolerance. */
  lemma {:induction false} SidesAboveTolerance(b: seq<Entry>)
    ensures forall k :: 0 <= k < |Creditors(b)| ==> Creditors(b)[k].bal >= Tolerance
    ensures forall k :: 0 <= k < |Debtors(b)| ==> Debtors(b)[k].bal >= Tolerance
  {
    forall k | 0 <= k < |Creditors(b)|
      ensures Creditors(b)[k].bal >= Tolerance
    {
      assert Creditors(b)[k] in Creditors(b);
    }
    forall k | 0 <= k < |Debtors(b)|
      ensures Debtors(b)[k].bal >= Tolerance
    {
      assert Debtors(b)[k] in Debtors(b);
    }
  }
}
