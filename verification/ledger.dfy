/** The net-balance table built from the expense list.

    The application keeps balances in a plain object keyed by member name.
    Its iteration order is insertion order, so the table is modelled as a
    sequence of (name, balance) entries in the order each name was first
    seen; an update to a known name changes its entry in place and a new
    name is appended with `0 + delta`.
 */
module Ledger {
  import opened Types

  datatype Entry = Entry(name: string, bal: real)

  /** The balance recorded for `n`, or 0 when `n` has no entry (the
      `|| 0` default of the source). */
  function Lookup(b: seq<Entry>, n: string): real
  {
    if |b| == 0 then 0.0
    else if b[0].name == n then b[0].bal
    else Lookup(b[1..], n)
  }

  /** The names of the table, in table order. */
  function Names(b: seq<Entry>): seq<string>
  {
    if |b| == 0 then [] else [b[0].name] + Names(b[1..])
  }

  /** `Names` lists the entries' names index by index. */
  lemma {:induction false} NamesAt(b: seq<Entry>)
    ensures |Names(b)| == |b|
    ensures forall k :: 0 <= k < |b| ==> Names(b)[k] == b[k].name
  {
    if |b| > 0 {
      NamesAt(b[1..]);
    }
  }

  /** No string occurs twice. */
  predicate Distinct(s: seq<string>)
  {
    forall a, c :: 0 <= a < c < |s| ==> s[a] != s[c]
  }

  /** Object keys are unique: no name has two entries. */
  predicate UniqueNames(b: seq<Entry>)
  {
    Distinct(Names(b))
  }

  /** Appending a fresh string keeps a sequence free of repeats. */
  lemma {:induction false} DistinctAppend(s: seq<string>, n: string)
    requires Distinct(s) && n !in s
    ensures Distinct(s + [n])
  {
  }

  /** Sum of all balances in the table. */
  function Total(b: seq<Entry>): real
  {
    if |b| == 0 then 0.0 else b[0].bal + Total(b[1..])
  }

  /** Number of times `n` occurs in `ns`. */
  function Count(ns: seq<string>, n: string): (c: nat)
    ensures c <= |ns|
    ensures c == 0 <==> n !in ns
  {
    if |ns| == 0 then 0 else (if ns[0] == n then 1 else 0) + Count(ns[1..], n)
  }

  /** `balances[n] = (balances[n] || 0) + delta`: only `n`'s balance
      moves, and it moves by exactly `delta`. */
  function Adjust(b: seq<Entry>, n: string, delta: real): (r: seq<Entry>)
    ensures forall m :: Lookup(r, m) == Lookup(b, m) + (if m == n then delta else 0.0)
  {
    if |b| == 0 then [Entry(n, delta)]
    else if b[0].name == n then [Entry(n, b[0].bal + delta)] + b[1..]
    else [b[0]] + Adjust(b[1..], n, delta)
  }

  /** Adjusting a balance adds `delta` to the table's sum. */
  lemma {:induction false} AdjustTotal(b: seq<Entry>, n: string, delta: real)
    ensures Total(Adjust(b, n, delta)) == Total(b) + delta
  {
    if |b| > 0 && b[0].name != n {
      AdjustTotal(b[1..], n, delta);
    }
  }

  /** Adjusting a balance keeps every known name where it is and appends
      an unknown one at the end, so names stay unique. */
  lemma {:induction false} AdjustNames(b: seq<Entry>, n: string, delta: real)
    ensures Names(Adjust(b, n, delta)) == if n in Names(b) then Names(b) else Names(b) + [n]
    ensures UniqueNames(b) ==> UniqueNames(Adjust(b, n, delta))
  {
    if |b| > 0 && b[0].name != n {
      var rest := Adjust(b[1..], n, delta);
      AdjustNames(b[1..], n, delta);
      assert Adjust(b, n, delta) == [b[0]] + rest;
      assert Names([b[0]] + rest) == [b[0].name] + Names(rest);
      assert Names(b) == [b[0].name] + Names(b[1..]);
    } else if |b| > 0 {
      assert Names(Adjust(b, n, delta)) == Names(b);
    }
    if n !in Names(b) && UniqueNames(b) {
      DistinctAppend(Names(b), n);
    }
  }

  /** `ns` with `n` appended unless it is already there: the key order of
      an object after `n` is assigned. */
  function AddName(ns: seq<string>, n: string): (r: seq<string>)
    ensures Distinct(ns) ==> Distinct(r)
    ensures forall m :: m in r <==> m in ns || m == n
  {
    if n in ns then ns
    else
      assert Distinct(ns) ==> Distinct(ns + [n]) by {
        if Distinct(ns) {
          DistinctAppend(ns, n);
        }
      }
      ns + [n]
  }

  /** The names of `ps` added to `ns` one by one, each only on its first
      occurrence. */
  function Keep(ns: seq<string>, ps: seq<string>): seq<string>
    decreases |ps|
  {
    if |ps| == 0 then ns else Keep(AddName(ns, ps[0]), ps[1..])
  }

  /** Adding two lists of names is adding one after the other. */
  lemma {:induction false} KeepAppend(ns: seq<string>, a: seq<string>, c: seq<string>)
    ensures Keep(ns, a + c) == Keep(Keep(ns, a), c)
    decreases |a|
  {
    if |a| > 0 {
      assert (a + c)[0] == a[0] && (a + c)[1..] == a[1..] + c;
      KeepAppend(AddName(ns, a[0]), a[1..], c);
    } else {
      assert a + c == c;
    }
  }

  /** `Keep` keeps what was there as a prefix, adds exactly the names of
      `ps`, and never repeats a name. */
  lemma {:induction false} KeepShape(ns: seq<string>, ps: seq<string>)
    ensures ns <= Keep(ns, ps)
    ensures forall m :: m in Keep(ns, ps) <==> m in ns || m in ps
    ensures Distinct(ns) ==> Distinct(Keep(ns, ps))
    decreases |ps|
  {
    if |ps| > 0 {
      KeepShape(AddName(ns, ps[0]), ps[1..]);
      assert forall m :: m in ps <==> m == ps[0] || m in ps[1..];
    }
  }

  /** `c` copies of `x` added up: the total debited from a name listed `c`
      times among the participants. */
  function Times(c: nat, x: real): real
  {
    if c == 0 then 0.0 else x + Times(c - 1, x)
  }

  /** One more copy adds `x` once more. */
  lemma {:induction false} TimesSucc(c: nat, x: real)
    ensures Times(c + 1, x) == x + Times(c, x)
  {
  }

  /** Adding up `c` copies of `x` is multiplication. */
  lemma {:induction false} TimesIsProduct(c: nat, x: real)
    ensures Times(c, x) == (c as real) * x
  {
    if c > 0 {
      TimesIsProduct(c - 1, x);
    }
  }

  /** Subtracts `share` from every participant, once per occurrence, in
      list order (the `participants.forEach` of the source). */
  function Debit(b: seq<Entry>, ps: seq<string>, share: real): (r: seq<Entry>)
    decreases |ps|
  {
    if |ps| == 0 then b else Debit(Adjust(b, ps[0], -share), ps[1..], share)
  }

  /** Each name loses one share per occurrence among the participants. */
  lemma {:induction false} DebitLookup(b: seq<Entry>, ps: seq<string>, share: real)
    ensures forall m :: Lookup(Debit(b, ps, share), m) == Lookup(b, m) - Times(Count(ps, m), share)
    decreases |ps|
  {
    if |ps| > 0 {
      var b' := Adjust(b, ps[0], -share);
      assert Debit(b, ps, share) == Debit(b', ps[1..], share);
      DebitLookup(b', ps[1..], share);
      forall m
        ensures Lookup(Debit(b, ps, share), m) == Lookup(b, m) - Times(Count(ps, m), share)
      {
        var c := Count(ps[1..], m);
        if ps[0] == m {
          assert Count(ps, m) == c + 1;
          TimesSucc(c, share);
        } else {
          assert Count(ps, m) == c;
        }
      }
    }
  }

  /** Debiting lowers the table's sum by one share per participant. */
  lemma {:induction false} DebitTotal(b: seq<Entry>, ps: seq<string>, share: real)
    ensures Total(Debit(b, ps, share)) == Total(b) - Times(|ps|, share)
    decreases |ps|
  {
    if |ps| > 0 {
      var b' := Adjust(b, ps[0], -share);
      assert Debit(b, ps, share) == Debit(b', ps[1..], share);
      AdjustTotal(b, ps[0], -share);
      DebitTotal(b', ps[1..], share);
      TimesSucc(|ps| - 1, share);
    }
  }

  /** Debiting keeps names unique. */
  lemma {:induction false} DebitUnique(b: seq<Entry>, ps: seq<string>, share: real)
    requires UniqueNames(b)
    ensures UniqueNames(Debit(b, ps, share))
    decreases |ps|
  {
    if |ps| > 0 {
      var b' := Adjust(b, ps[0], -share);
      assert Debit(b, ps, share) == Debit(b', ps[1..], share);
      AdjustNames(b, ps[0], -share);
      DebitUnique(b', ps[1..], share);
    }
  }

  /** Debiting keeps the names already present in place and appends each
      participant not yet present, in the order of its first occurrence. */
  lemma {:induction false} DebitNames(b: seq<Entry>, ps: seq<string>, share: real)
    ensures Names(Debit(b, ps, share)) == Keep(Names(b), ps)
    ensures Names(b) <= Names(Debit(b, ps, share))
    ensures forall m :: m in Names(Debit(b, ps, share)) <==> m in Names(b) || m in ps
    decreases |ps|
  {
    if |ps| > 0 {
      var b' := Adjust(b, ps[0], -share);
      assert Debit(b, ps, share) == Debit(b', ps[1..], share);
      AdjustNames(b, ps[0], -share);
      assert Names(b') == AddName(Names(b), ps[0]);
      assert Keep(Names(b), ps) == Keep(Names(b'), ps[1..]);
      DebitNames(b', ps[1..], share);
    }
    assert Names(Debit(b, ps, share)) == Keep(Names(b), ps);
    KeepShape(Names(b), ps);
  }

  /** An expense takes part in settlement only when it is shared and has
      at least one participant. */
  predicate Applies(e: Expense)
  {
    e.isShared && |e.participants| > 0
  }

  /** The equal share of one participant: one share per participant adds
      up to exactly the amount. */
  function Share(e: Expense): (r: real)
    requires Applies(e)
    ensures Times(|e.participants|, r) == e.amount
  {
    SplitIsExact(e.amount, |e.participants|);
    e.amount / (|e.participants| as real)
  }

  /** The names an expense mentions: its payer, then its participants,
      when it is applied, and none otherwise. */
  function Mentioned(e: Expense): seq<string>
  {
    if Applies(e) then [e.payer] + e.participants else []
  }

  /** The names the applied expenses of a list mention, in list order. */
  function Mentions(es: seq<Expense>): seq<string>
  {
    if |es| == 0 then [] else Mentioned(es[0]) + Mentions(es[1..])
  }

  /** The members of an expense list in the order they are first
      mentioned by an applied expense, without repeats. */
  function FirstSeen(es: seq<Expense>): seq<string>
  {
    Keep([], Mentions(es))
  }

  /** What expense `e` alone does to the balance of `m`: the payer is owed
      the whole amount, and each occurrence of `m` among the participants
      owes one equal share of it.  This is the reference the accumulation
      is checked against. */
  function Effect(e: Expense, m: string): real
  {
    if !Applies(e) then 0.0
    else (if m == e.payer then e.amount else 0.0) - Times(Count(e.participants, m), Share(e))
  }

  /** Net position of `m` over a whole expense list, by the reference. */
  function Net(es: seq<Expense>, m: string): real
  {
    if |es| == 0 then 0.0 else Effect(es[0], m) + Net(es[1..], m)
  }

  /** Debiting each of `n` participants an `n`-th of the amount debits
      exactly the amount. */
  lemma {:induction false} SplitIsExact(amount: real, n: nat)
    requires n > 0
    ensures Times(n, amount / (n as real)) == amount
  {
    TimesIsProduct(n, amount / (n as real));
  }

  /** Folds one expense into the table: credit the payer, then debit each
      participant its share.  A skipped expense changes nothing; an
      applied one moves every balance by its `Effect` and keeps the sum. */
  function ApplyExpense(b: seq<Entry>, e: Expense): (r: seq<Entry>)
    ensures !Applies(e) ==> r == b
    ensures forall m :: Lookup(r, m) == Lookup(b, m) + Effect(e, m)
    ensures Total(r) == Total(b)
  {
    if !Applies(e) then b
    else
      var credited := Adjust(b, e.payer, e.amount);
      DebitLookup(credited, e.participants, Share(e));
      AdjustTotal(b, e.payer, e.amount);
      DebitTotal(credited, e.participants, Share(e));
      SplitIsExact(e.amount, |e.participants|);
      Debit(credited, e.participants, Share(e))
  }

  /** Folding an expense in keeps known names in place, appends the names
      it mentions that are new, in order, and keeps names unique. */
  lemma {:induction false} ApplyExpenseShape(b: seq<Entry>, e: Expense)
    ensures Names(ApplyExpense(b, e)) == Keep(Names(b), Mentioned(e))
    ensures Names(b) <= Names(ApplyExpense(b, e))
    ensures Applies(e) ==>
      forall m :: m in Names(ApplyExpense(b, e)) <==> m in Names(b) || m == e.payer || m in e.participants
    ensures UniqueNames(b) ==> UniqueNames(ApplyExpense(b, e))
  {
    if Applies(e) {
      var credited := Adjust(b, e.payer, e.amount);
      AdjustNames(b, e.payer, e.amount);
      DebitNames(credited, e.participants, Share(e));
      if UniqueNames(b) {
        DebitUnique(credited, e.participants, Share(e));
      }
      var ms := Mentioned(e);
      assert ms[0] == e.payer && ms[1..] == e.participants;
    }
  }

  /** Folds a whole expense list into `b`, in list order. */
  function ApplyAll(b: seq<Entry>, es: seq<Expense>): (r: seq<Entry>)
    ensures forall m :: Lookup(r, m) == Lookup(b, m) + Net(es, m)
    ensures Total(r) == Total(b)
    ensures (forall e :: e in es ==> !Applies(e)) ==> r == b
    decreases |es|
  {
    if |es| == 0 then b
    else
      assert forall e :: e in es[1..] ==> e in es;
      ApplyAll(ApplyExpense(b, es[0]), es[1..])
  }

  /** Folding a list keeps known names in place, appends the new names in
      the order the applied expenses mention them, and keeps names
      unique. */
  lemma {:induction false} ApplyAllShape(b: seq<Entry>, es: seq<Expense>)
    ensures Names(ApplyAll(b, es)) == Keep(Names(b), Mentions(es))
    ensures UniqueNames(b) ==> UniqueNames(ApplyAll(b, es))
    decreases |es|
  {
    if |es| > 0 {
      ApplyExpenseShape(b, es[0]);
      ApplyAllShape(ApplyExpense(b, es[0]), es[1..]);
      KeepAppend(Names(b), Mentioned(es[0]), Mentions(es[1..]));
    }
  }

  /** Folding two lists one after the other is folding their
      concatenation. */
  lemma {:induction false} ApplyAllAppend(b: seq<Entry>, a: seq<Expense>, c: seq<Expense>)
    ensures ApplyAll(b, a + c) == ApplyAll(ApplyAll(b, a), c)
    decreases |a|
  {
    if |a| > 0 {
      assert (a + c)[1..] == a[1..] + c;
      ApplyAllAppend(ApplyExpense(b, a[0]), a[1..], c);
    } else {
      assert a + c == c;
    }
  }

  /** The net-balance table of the source: the fold of every expense into
      an empty table.  Balances sum to exactly zero, names are unique and in
      the order they are first mentioned, each balance is the reference
      `Net`, and a list in which every expense is skipped yields an empty
      table. */
  function Accumulate(es: seq<Expense>): (r: seq<Entry>)
    ensures Total(r) == 0.0
    ensures Names(r) == FirstSeen(es)
    ensures UniqueNames(r)
    ensures forall m :: Lookup(r, m) == Net(es, m)
    ensures (forall e :: e in es ==> !Applies(e)) ==> r == []
  {
    ApplyAllShape([], es);
    assert Names([]) == [];
    ApplyAll([], es)
  }

  /** A name without an entry reads as 0. */
  lemma {:induction false} LookupAbsent(b: seq<Entry>, n: string)
    requires n !in Names(b)
    ensures Lookup(b, n) == 0.0
  {
    if |b| > 0 {
      assert Names(b) == [b[0].name] + Names(b[1..]);
      LookupAbsent(b[1..], n);
    }
  }

  /** In a table with unique names, an entry's balance is what `Lookup`
      reads for its name. */
  lemma {:induction false} LookupEntry(b: seq<Entry>, k: int)
    requires UniqueNames(b)
    requires 0 <= k < |b|
    ensures Lookup(b, b[k].name) == b[k].bal
  {
    if k > 0 {
      UniqueTail(b);
      NamesAt(b[1..]);
      assert b[k].name == Names(b[1..])[k - 1];
      LookupEntry(b[1..], k - 1);
    }
  }

  /** The tail of a unique-name table is one too, and does not hold the
      head's name. */
  lemma {:induction false} UniqueTail(b: seq<Entry>)
    requires UniqueNames(b) && |b| > 0
    ensures UniqueNames(b[1..])
    ensures b[0].name !in Names(b[1..])
  {
    var t := Names(b[1..]);
    assert Names(b) == [b[0].name] + t;
    forall a, c | 0 <= a < c < |t|
      ensures t[a] != t[c]
    {
      assert t[a] == Names(b)[a + 1] && t[c] == Names(b)[c + 1];
    }
    forall c | 0 <= c < |t|
      ensures t[c] != b[0].name
    {
      assert t[c] == Names(b)[c + 1];
      assert Names(b)[0] == b[0].name;
    }
  }

  /** A table with a head entry has unique names exactly when its tail
      does and the tail does not hold the head's name. */
  lemma {:induction false} UniqueCons(x: Entry, t: seq<Entry>)
    ensures UniqueNames([x] + t) <==> UniqueNames(t) && x.name !in Names(t)
  {
    assert ([x] + t)[1..] == t;
    var ns := Names([x] + t);
    assert ns == [x.name] + Names(t);
    if UniqueNames(t) && x.name !in Names(t) {
      forall a, c | 0 <= a < c < |ns|
        ensures ns[a] != ns[c]
      {
        if a > 0 {
          assert ns[a] == Names(t)[a - 1] && ns[c] == Names(t)[c - 1];
        } else {
          assert ns[c] == Names(t)[c - 1];
        }
      }
    }
    if UniqueNames([x] + t) {
      UniqueTail([x] + t);
    }
  }

  /** A name that has an entry has one at a known index. */
  lemma {:induction false} NameIndex(b: seq<Entry>, n: string) returns (k: int)
    requires n in Names(b)
    ensures 0 <= k < |b| && b[k].name == n
  {
    NamesAt(b);
    k :| 0 <= k < |b| && Names(b)[k] == n;
  }

  /** An expense whose only participant is its payer changes nobody's
      balance. */
  lemma {:induction false} SolePayerNetsZero(b: seq<Entry>, e: Expense)
    requires e.isShared && e.participants == [e.payer]
    ensures forall m :: Lookup(ApplyExpense(b, e), m) == Lookup(b, m)
  {
    forall m
      ensures Effect(e, m) == 0.0
    {
      assert Count(e.participants, m) == if m == e.payer then 1 else 0;
      assert Times(1, Share(e)) == e.amount;
    }
  }
}
