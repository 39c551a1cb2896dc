/** The descending sort applied to the creditor and debtor lists.

    The source sorts with the comparator `b.bal - a.bal`, and the
    language's array sort is stable, so entries with equal balances keep
    their table order.  `SortDesc` is an insertion sort with that
    behaviour; `StableDescendingUnique` shows that every stable
    descending sort of the same list gives the same result, so the choice
    of algorithm does not matter.
 */
module Ordering {
  import opened Ledger

  /** Balances never increase from left to right. */
  predicate Descending(s: seq<Entry>)
  {
    forall a, c :: 0 <= a < c < |s| ==> s[a].bal >= s[c].bal
  }

  /** The entries of `s` whose balance is exactly `v`, in order. */
  function WithBal(s: seq<Entry>, v: real): seq<Entry>
  {
    if |s| == 0 then []
    else (if s[0].bal == v then [s[0]] else []) + WithBal(s[1..], v)
  }

  /** Puts `x` in front of the first entry whose balance does not exceed
      its own, so it lands ahead of the entries it ties with. */
  function Insert(x: Entry, s: seq<Entry>): (r: seq<Entry>)
    ensures multiset(r) == multiset(s) + multiset{x}
  {
    if |s| == 0 then [x]
    else if x.bal >= s[0].bal then [x] + s
    else
      var rest := Insert(x, s[1..]);
      assert s == [s[0]] + s[1..];
      [s[0]] + rest
  }

  /** Inserting into a descending list keeps it descending. */
  lemma {:induction false} InsertDescending(x: Entry, s: seq<Entry>)
    requires Descending(s)
    ensures Descending(Insert(x, s))
  {
    if |s| > 0 && x.bal < s[0].bal {
      var rest := Insert(x, s[1..]);
      InsertDescending(x, s[1..]);
      assert Insert(x, s) == [s[0]] + rest;
      forall p | p in rest
        ensures p.bal <= s[0].bal
      {
        assert p in multiset(rest);
        if p != x {
          assert p in multiset(s[1..]);
          var k :| 0 <= k < |s[1..]| && s[1..][k] == p;
          assert s[k + 1] == p;
        }
      }
      forall a, c | 0 <= a < c < |[s[0]] + rest|
        ensures ([s[0]] + rest)[a].bal >= ([s[0]] + rest)[c].bal
      {
        if a == 0 {
          assert ([s[0]] + rest)[c] in rest;
        }
      }
    }
  }

  /** `WithBal` of a list with a given head. */
  lemma {:induction false} WithBalCons(p: Entry, t: seq<Entry>, v: real)
    ensures WithBal([p] + t, v) == (if p.bal == v then [p] else []) + WithBal(t, v)
  {
    assert ([p] + t)[1..] == t;
  }

  /** `x` goes in ahead of every entry it ties with. */
  lemma {:induction false} InsertStable(x: Entry, s: seq<Entry>, v: real)
    ensures WithBal(Insert(x, s), v) == (if x.bal == v then [x] else []) + WithBal(s, v)
  {
    if |s| == 0 {
      WithBalCons(x, [], v);
    } else if x.bal >= s[0].bal {
      WithBalCons(x, s, v);
    } else {
      var rest := Insert(x, s[1..]);
      InsertStable(x, s[1..], v);
      assert Insert(x, s) == [s[0]] + rest;
      WithBalCons(s[0], rest, v);
      assert s == [s[0]] + s[1..];
      WithBalCons(s[0], s[1..], v);
    }
  }

  /** Inserting an entry with a fresh name keeps names unique and adds
      exactly that name. */
  lemma {:induction false} InsertNames(x: Entry, s: seq<Entry>)
    ensures forall n :: n in Names(Insert(x, s)) <==> n == x.name || n in Names(s)
    ensures UniqueNames(s) && x.name !in Names(s) ==> UniqueNames(Insert(x, s))
  {
    if |s| == 0 {
      assert Names([x]) == [x.name];
    } else if x.bal >= s[0].bal {
      UniqueCons(x, s);
      assert Names([x] + s) == [x.name] + Names(s);
    } else {
      var rest := Insert(x, s[1..]);
      InsertNames(x, s[1..]);
      assert Insert(x, s) == [s[0]] + rest;
      assert ([s[0]] + rest)[1..] == rest;
      assert s == [s[0]] + s[1..];
      assert Names([s[0]] + rest) == [s[0].name] + Names(rest);
      assert Names(s) == [s[0].name] + Names(s[1..]);
      UniqueCons(s[0], rest);
      UniqueCons(s[0], s[1..]);
    }
  }

  /** Stable descending sort: the result is ordered and is a permutation
      of the input. */
  function SortDesc(s: seq<Entry>): (r: seq<Entry>)
    ensures Descending(r)
    ensures multiset(r) == multiset(s)
    ensures |r| == |s|
  {
    if |s| == 0 then []
    else
      var r := Insert(s[0], SortDesc(s[1..]));
      InsertDescending(s[0], SortDesc(s[1..]));
      assert s == [s[0]] + s[1..];
      assert multiset(s) == multiset{s[0]} + multiset(s[1..]);
      assert |r| == |multiset(r)|;
      r
  }

  /** The sort is stable: the entries of any one balance come out in input
      order. */
  lemma {:induction false} SortDescStable(s: seq<Entry>, v: real)
    ensures WithBal(SortDesc(s), v) == WithBal(s, v)
  {
    if |s| > 0 {
      SortDescStable(s[1..], v);
      InsertStable(s[0], SortDesc(s[1..]), v);
    }
  }

  /** Sorting keeps the set of names and keeps them unique. */
  lemma {:induction false} SortDescNames(s: seq<Entry>)
    ensures forall n :: n in Names(SortDesc(s)) <==> n in Names(s)
    ensures UniqueNames(s) ==> UniqueNames(SortDesc(s))
  {
    if |s| > 0 {
      SortDescNames(s[1..]);
      InsertNames(s[0], SortDesc(s[1..]));
      assert s == [s[0]] + s[1..];
      assert Names(s) == [s[0].name] + Names(s[1..]);
      UniqueCons(s[0], s[1..]);
    }
  }

  /** `SortDesc` is the stable descending sort: any list that is
      descending and keeps equal balances in input order is its result. */
  lemma {:induction false} SortDescIsTheStableSort(s: seq<Entry>, r: seq<Entry>)
    requires Descending(r)
    requires forall v :: WithBal(r, v) == WithBal(s, v)
    ensures r == SortDesc(s)
  {
    forall v
      ensures WithBal(r, v) == WithBal(SortDesc(s), v)
    {
      SortDescStable(s, v);
    }
    StableDescendingUnique(r, SortDesc(s));
  }

  /** An ordered list's first entry with balance `v`. */
  lemma {:induction false} WithBalHead(s: seq<Entry>)
    requires |s| > 0
    ensures WithBal(s, s[0].bal) == [s[0]] + WithBal(s[1..], s[0].bal)
    ensures forall v :: v != s[0].bal ==> WithBal(s, v) == WithBal(s[1..], v)
  {
  }

  /** Every entry listed by `WithBal` is an entry of the list. */
  lemma {:induction false} WithBalMember(s: seq<Entry>, v: real, p: Entry)
    requires p in WithBal(s, v)
    ensures p in s && p.bal == v
  {
    if s[0].bal != v || p != s[0] {
      WithBalMember(s[1..], v, p);
    }
  }

  /** An entry of the list shows up among those with its balance. */
  lemma {:induction false} MemberWithBal(s: seq<Entry>, p: Entry)
    requires p in s
    ensures p in WithBal(s, p.bal)
  {
    if s[0] != p {
      MemberWithBal(s[1..], p);
    }
  }

  /** A list is empty exactly when it has no entry of any balance. */
  lemma {:induction false} WithBalEmpty(s: seq<Entry>)
    ensures |s| == 0 <==> forall v :: WithBal(s, v) == []
  {
    if |s| > 0 {
      MemberWithBal(s, s[0]);
    }
  }

  /** The head of a descending list carries its largest balance. */
  lemma {:induction false} HeadIsMax(s: seq<Entry>, p: Entry)
    requires Descending(s) && p in s
    ensures s[0].bal >= p.bal
  {
    var k :| 0 <= k < |s| && s[k] == p;
  }

  /** Stable descending order is unique: two descending lists that agree on
      the order of the entries of every balance are the same list. */
  lemma {:induction false} StableDescendingUnique(r1: seq<Entry>, r2: seq<Entry>)
    requires Descending(r1) && Descending(r2)
    requires forall v :: WithBal(r1, v) == WithBal(r2, v)
    ensures r1 == r2
    decreases |r1|
  {
    WithBalEmpty(r1);
    WithBalEmpty(r2);
    if |r1| > 0 && |r2| > 0 {
      var v := r1[0].bal;
      // Each head occurs in the other list, and each head is that list's
      // maximum, so the two heads carry the same balance.
      MemberWithBal(r1, r1[0]);
      WithBalMember(r2, v, r1[0]);
      HeadIsMax(r2, r1[0]);
      MemberWithBal(r2, r2[0]);
      WithBalMember(r1, r2[0].bal, r2[0]);
      HeadIsMax(r1, r2[0]);
      assert r2[0].bal == v;
      WithBalHead(r1);
      WithBalHead(r2);
      var w1 := WithBal(r1, v);
      var w2 := WithBal(r2, v);
      assert w1 == w2;
      assert w1[0] == r1[0] && w2[0] == r2[0];
      forall u
        ensures WithBal(r1[1..], u) == WithBal(r2[1..], u)
      {
        if u == v {
          assert WithBal(r1[1..], v) == WithBal(r1, v)[1..];
          assert WithBal(r2[1..], v) == WithBal(r2, v)[1..];
        } else {
          assert WithBal(r1[1..], u) == WithBal(r1, u);
          assert WithBal(r2[1..], u) == WithBal(r2, u);
        }
      }
      StableDescendingUnique(r1[1..], r2[1..]);
      assert r1 == [r1[0]] + r1[1..];
      assert r2 == [r2[0]] + r2[1..];
    }
  }
}
