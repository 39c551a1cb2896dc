# Debt settlement of a shared travel budget

This project models `calculateMinCashFlow` in `services/expenseLogic.ts`, the
routine that turns a trip's list of recorded expenses into a list of "who pays
whom how much" instructions, and proves properties of that model in Dafny.

The routine works in three stages, and the model follows them:

1. **Balance accumulation** (`Ledger`, `ledger.dfy`). Every expense that is
   shared and has at least one participant is folded into a table of net
   balances. The payer is credited with the whole amount, and each participant
   is debited `amount / |participants|`. The table is a plain object in the
   source. Its iteration order is insertion order, so it is modelled as a
   sequence of name/balance entries in the order the names were first seen. The
   reference `Net(es, m)` states each member's position expense by expense, and
   `Accumulate` is proved to agree with it.
2. **Partition and sort** (`Settlement`, `settlement.dfy`, and `Ordering`,
   `ordering.dfy`).
   - Creditors are the entries with balance above `0.01`.
   - Debtors are the entries with balance below `-0.01`, with the debt made
     positive.
   - Each side is sorted largest first with the language's stable sort, which
     is modelled as an insertion sort that is proved stable. Any stable
     descending sort is proved to give the same list.
3. **Greedy matching** (`Matching`, `matching.dfy`, and `Flow`, `flow.dfy`).
   - `Greedy` states the two-cursor walk as a recursive definition.
   - `Match` is the loop itself, and it is proved equal to `Greedy` with every
     amount rounded to whole cents (`toFixed(2)` read back by `parseFloat`).
   - Balances go down by the unrounded amount, as in the source.
   - Every transfer carries the first expense's currency, or TWD for an empty
     list.

`Flow.CalculateMinCashFlow` is the whole routine. Its contract is stated in
terms of the reference net balances:

- each transfer runs from a member owing more than the tolerance to a member
  owed more than it;
- it carries at least the tolerance in whole cents;
- members within the tolerance take no part;
- nobody receives or pays more than their balance, up to the rounding;
- one side (every creditor or every debtor) ends within the tolerance, up to
  half a cent of rounding per transfer;
- there are no transfers, or fewer than unsettled members.

`Scenarios` (`scenarios.dfy`) computes small worked examples exactly: the
table, both sorted sides, the walk and the rounded result.

Records (`Types`, `types.dfy`) follow `types.ts`: `Currency` (lines 12-15),
`Expense` (42-51) and `DebtSummary` (53-58). Amounts are exact rationals
(`real`).

Three behaviours of the code are worth knowing before reading the
contracts:

- **Currencies are pooled.** The code folds every expense into one table,
  whatever its currency, and tags every transfer with the first expense's
  currency, even when that expense is not shared. The rest of the
  application keeps currencies apart:
  - its sample data mixes a yen and a TWD expense
    (`components/ExpenseManager.tsx:16-17`);
  - it totals each currency separately (`:77-86`);
  - it shows each transfer with the symbol of its tag (`:99-100`).

  This is logged under Findings, and a per-currency settlement is modelled
  in `Currencies` (`currencies.dfy`).
- **Ties follow the table.** Equal balances are matched in table order, the
  order in which the members are first mentioned, because the sort is
  stable. There is no secondary key such as the member name.
- **Not everyone ends settled.** The walk stops when one side runs out, and
  members within 0.01 are never on a side. A creditor can therefore be left
  owed more than the tolerance: `Scenarios.DustLeftUnsettled` gives a list
  after which a member is still owed 0.02.

## Model

| member | source | states |
|---|---|---|
| Ledger.Adjust | services/expenseLogic.ts:15 | `balances[n] = (balances[n] \|\| 0) + delta` moves exactly `n`'s balance by `delta`; a name without an entry reads as 0; every other balance is unchanged |
| Ledger.AdjustNames | services/expenseLogic.ts:19 | an update to a known name keeps the table's names in place, and a new name is appended at the end (object insertion order); names stay unique |
| Ledger.AdjustTotal | services/expenseLogic.ts:15 | an update adds `delta` to the sum of all balances |
| Ledger.DebitLookup | services/expenseLogic.ts:18-20 | debiting the participants takes one share from a name per occurrence in the participant list, and nothing from anyone else |
| Ledger.DebitNames | services/expenseLogic.ts:18-20 | debiting keeps the known names in place and appends each new participant at its first occurrence, in list order |
| Ledger.DebitTotal | services/expenseLogic.ts:18-20 | debiting `k` participants takes `k` shares off the sum of all balances |
| Ledger.Share | services/expenseLogic.ts:12 | one share per participant adds up to exactly the expense's amount |
| Ledger.SplitIsExact | services/expenseLogic.ts:12 | `n` shares of `amount / n` add up to exactly `amount` |
| Ledger.ApplyExpense | services/expenseLogic.ts:8-21 | an expense that is not shared, or has no participants, changes nothing; otherwise every balance moves by that expense's reference effect, and the sum of balances is kept |
| Ledger.ApplyExpenseShape | services/expenseLogic.ts:9-20 | folding in an applied expense keeps known names in place and appends the payer, then the participants, each only if new; a skipped expense adds no name; names stay unique |
| Ledger.ApplyAll | services/expenseLogic.ts:8-21 | folding a list moves every balance by the reference net position over the list and keeps the sum; a list of skipped expenses changes nothing |
| Ledger.ApplyAllAppend | services/expenseLogic.ts:8 | the expenses are folded in list order: folding a concatenation is folding one part after the other |
| Ledger.Accumulate | services/expenseLogic.ts:6-21 | the balance table sums to exactly zero; its names are unique and in the order the applied expenses first mention them (payer, then participants), which is the key order `Object.entries` gives; every balance agrees with the reference `Net`; the table is empty when every expense is skipped |
| Ledger.SolePayerNetsZero | services/expenseLogic.ts:15-19 | an expense whose only participant is its payer leaves every balance unchanged |
| Ordering.SortDesc | services/expenseLogic.ts:28 | the sort's result is in non-increasing balance order and is a permutation of its input |
| Ordering.SortDescStable | services/expenseLogic.ts:28 | entries with equal balances come out in input order |
| Ordering.StableDescendingUnique | services/expenseLogic.ts:28 | two descending lists that agree on the order within every balance are equal |
| Ordering.SortDescIsTheStableSort | services/expenseLogic.ts:33 | any descending list that keeps each balance's entries in input order is exactly `SortDesc`'s result |
| Ordering.SortDescNames | services/expenseLogic.ts:28 | sorting keeps the set of names and keeps them unique |
| Settlement.OwedMembers | services/expenseLogic.ts:26 | the creditor filter keeps exactly the entries whose balance is above 0.01 |
| Settlement.OwingMembers | services/expenseLogic.ts:31-32 | the debtor filter keeps exactly the entries whose balance is below -0.01, with the balance negated |
| Settlement.OwedWithBal | services/expenseLogic.ts:25-26 | the creditor filter keeps the entries of each balance above 0.01 in table order |
| Settlement.OwingWithBal | services/expenseLogic.ts:30-32 | the debtor filter keeps the entries of each balance below -0.01 in table order, negated |
| Settlement.Creditors | services/expenseLogic.ts:25-28 | the creditor list is sorted largest first, holds exactly the table entries with balance above 0.01, and lists equal balances in table order |
| Settlement.CreditorsDetermined | services/expenseLogic.ts:25-28 | those three properties leave no freedom: any list that has them is the creditor list |
| Settlement.Debtors | services/expenseLogic.ts:30-33 | the debtor list is sorted largest first, holds exactly the table entries with balance below -0.01 with the debts made positive, and lists equal debts in table order |
| Settlement.DebtorsDetermined | services/expenseLogic.ts:30-33 | those three properties leave no freedom: any list that has them is the debtor list |
| Settlement.CreditorsLookup | services/expenseLogic.ts:25-28 | a name's balance on the creditor list is its table balance when that is above 0.01, and 0 otherwise |
| Settlement.DebtorsLookup | services/expenseLogic.ts:30-33 | a name's balance on the debtor list is its debt when the table balance is below -0.01, and 0 otherwise |
| Settlement.UnsettledSplit | services/expenseLogic.ts:25-33 | creditors and debtors together are exactly the members whose balance is outside the tolerance |
| Settlement.SidesUnique | services/expenseLogic.ts:25-33 | no name appears twice on either list |
| Settlement.SidesAboveTolerance | services/expenseLogic.ts:26 | every party on either list holds at least 0.01 |
| Settlement.Min | services/expenseLogic.ts:39 | the amount is one of the two balances and is at most either |
| Matching.Cents | services/expenseLogic.ts:44 | rounding to two decimals lands within half a cent of the amount, on a whole number of cents, and keeps an amount of at least 0.01 at least 0.01 |
| Matching.CentsKeepsCents | services/expenseLogic.ts:44 | rounding an amount already in whole cents leaves it unchanged |
| Matching.RoundedTransfers | services/expenseLogic.ts:41-46 | only the amount of an emitted transfer is rounded; its payer, payee and currency are those of the step |
| Matching.RoundedAppend | services/expenseLogic.ts:41-46 | emitting one more transfer appends it with its amount rounded and nothing else changed |
| Matching.RoundedTotals | services/expenseLogic.ts:44 | what a member receives or pays over the rounded transfers is within half a cent per transfer of the unrounded totals |
| Matching.ReduceLookup | services/expenseLogic.ts:48-52 | after a step, the party's balance is lowered by the amount, or it leaves the list when the rest is below 0.01; every other party's balance is unchanged, and names stay unique |
| Matching.CursorStep | services/expenseLogic.ts:48-52 | lowering the balance under a cursor and moving the cursor on below 0.01 is the same as reducing the head of the rest of the list |
| Matching.GreedyCursor | services/expenseLogic.ts:38-53 | the walk from cursors `i`, `j`: the current debtor pays the current creditor the smaller of their balances, and the walk goes on over the reduced remainders of both lists |
| Matching.GreedyRetag | services/expenseLogic.ts:45 | the walk does not depend on the tag: with another currency it gives the same transfers carrying that currency |
| Matching.GreedyRouted | services/expenseLogic.ts:39-46 | every step's transfer carries the currency and at least 0.01, and runs from a debtor on the list to a creditor on the list |
| Matching.GreedyBounded | services/expenseLogic.ts:39-52 | nobody receives more than their creditor balance or pays more than their debt, and names on neither list take no part |
| Matching.GreedySettles | services/expenseLogic.ts:38-53 | when the walk stops, every creditor or every debtor has been paid to within 0.01 |
| Matching.GreedyLength | services/expenseLogic.ts:51-52 | every step takes at least one party off a list, so there are no transfers, or fewer than parties |
| Matching.Match | services/expenseLogic.ts:35-55 | the two-cursor loop returns exactly the greedy walk with each amount rounded to cents |
| Flow.SettleRouted | services/expenseLogic.ts:39-46 | each transfer of the inner settlement runs from a member with table balance below -0.01 to one above 0.01, with the given currency and at least 0.01 in whole cents |
| Flow.SettleBounded | services/expenseLogic.ts:39-52 | before rounding, nobody receives more than their positive balance or pays more than their debt, and members within the tolerance take no part |
| Flow.SettleSettles | services/expenseLogic.ts:38-53 | before rounding, every creditor or every debtor of the table ends within 0.01 |
| Flow.SettleLength | services/expenseLogic.ts:37-53 | there are no transfers, or fewer than members outside the tolerance |
| Flow.Settle | services/expenseLogic.ts:23-56 | the inner settlement on a table: the rounded greedy walk, with all the properties above, never a transfer to oneself, and rounding moving each member's totals by at most half a cent per transfer |
| Flow.FlowRouted | services/expenseLogic.ts:45 | every transfer is tagged with the first expense's currency and runs from a member whose net position is below -0.01 to one whose net is above 0.01 |
| Flow.FlowBounded | services/expenseLogic.ts:8-52 | members with net within the tolerance neither pay nor receive; nobody receives or pays more than their net, up to half a cent per transfer |
| Flow.FlowSettles | services/expenseLogic.ts:38-53 | every creditor or every debtor ends within 0.01 of their net, up to half a cent per transfer |
| Flow.FlowEmpty | services/expenseLogic.ts:9 | a list in which no expense is shared with anyone gives no transfers |
| Flow.SkippedExpenseIgnored | services/expenseLogic.ts:9 | a personal expense, or one without participants, anywhere after the first expense, leaves the result unchanged |
| Flow.SkippedFirstSetsCurrency | services/expenseLogic.ts:45 | a skipped first expense (not shared, or without participants) changes no balance, yet the result is that of the rest of the list with every transfer retagged in its currency |
| Flow.CalculateMinCashFlow | services/expenseLogic.ts:5-59 | the routine's result, stated against each member's net position: routing, currency tag, cents, bounds, one side settled (each up to half a cent of rounding per transfer), empty for no shared expense, and no transfers or fewer than unsettled members |
| Currencies.Only | services/expenseLogic.ts:8 | the expenses of one currency are exactly those of the list in that currency |
| Currencies.Tagged | services/expenseLogic.ts:45 | the transfers tagged with one currency are exactly those of the list carrying that tag |
| Currencies.CurrencyIsolation | services/expenseLogic.ts:45 | in the per-currency settlement, the transfers tagged `c` are exactly those of settling the `c` expenses alone, each between members of that currency's table |
| Currencies.OtherCurrencyIgnored | services/expenseLogic.ts:8-21 | in the per-currency settlement, adding an expense in another currency anywhere in the list leaves a currency's transfers unchanged |
| Currencies.CalculateByCurrency | services/expenseLogic.ts:5-59 | the per-currency routine: each currency's transfers are those of its own expenses, routed by that currency's net positions |
| Scenarios.OnePayer | services/expenseLogic.ts:25-55 | A pays 3000 for A, B, C: nets +2000, -1000, -1000; B and C tie, so the stable sort gives B then C, each paying A 1000 |
| Scenarios.SecondPayer | services/expenseLogic.ts:25-55 | then B pays 1500 for A, B, C: B nets 0 and drops out, and C pays A 1500 |
| Scenarios.TwoPayers | services/expenseLogic.ts:25-55 | A pays 900 and B pays 300, each for A, B, C: nets +500, -100, -400; C, the larger debtor, pays A 400, then B pays A 100 |
| Scenarios.SelfOnly | services/expenseLogic.ts:15-19 | A pays for A alone: no transfers |
| Scenarios.DustLeftUnsettled | services/expenseLogic.ts:26-31 | A pays 0.03 for A, B, C: B and C owe exactly 0.01, so neither is a debtor, and A, owed 0.02, is never paid |
| Scenarios.MixedPooled | services/expenseLogic.ts:8-21 | a 3000 yen expense and a 1500 TWD expense pooled into one table give the single transfer B to A 750 yen |
| Scenarios.MixedSeparated | services/expenseLogic.ts:45 | settled per currency, the same list gives A to B 750 TWD and B to A 1500 yen |

## Left out

- IEEE-754 double arithmetic. Amounts are exact rationals, so `900 / 3` is exactly 300, and the tolerance tests at 0.01 never flip because of binary rounding.
- The exact behaviour of `toFixed(2)` on doubles. Examples are an amount such as 1.005, whose nearest double lies below the half cent, and the exponent notation used from 1e21. `Matching.Cents` rounds the exact value half up.
- Ledger.Adjust: names of properties a plain object inherits (`constructor`, `toString`, `valueOf`, `hasOwnProperty` and the like) are ordinary keys here. In the source, `netBalances[name] || 0` on lines 15 and 19 reads the inherited function for such a name, so the first update stores NaN (line 19) or a string (line 15). While the balance is NaN or a string, the member fails both filters on lines 26 and 31. A later update's `|| 0` turns a NaN back into 0, so the member loses the updates before it and can still end up on a side. Either way the balances no longer sum to zero. The name `__proto__` is lost for good: on lines 15 and 19 the prototype setter ignores the value assigned, so that member never appears in `Object.entries` on line 25. It is on neither side, and again the balances no longer sum to zero. Member names are free text, so such a name can occur.
- Object key order for integer-like member names. JavaScript lists keys such as `"2"` before other keys, in numeric order. Names are taken in first-seen order.
- The `!expense.participants` test for a missing list. A Dafny sequence is never missing, so only the empty-list test remains.
- The `|| Currency.TWD` fallback for a falsy currency of the first expense. Both enum values are non-empty strings, so only the empty-list case is modelled.
- In-place mutation of the creditor and debtor objects. `Match` updates sequences, which has the same effect, since nothing else holds those objects.
- Ids, descriptions and dates. They are carried in `Expense` but never read.
- Everything outside `services/expenseLogic.ts`: the user interface, the itinerary and list features, and the translation service.
- Flow.FlowBounded: bounds the rounded totals only up to half a cent per transfer. This is weaker than an exact bound, because each emitted amount is rounded while balances go down by the unrounded amount.
- Flow.FlowSettles: states the one-side guarantee only up to half a cent per transfer of rounding, for the same reason.

## Findings

| source | as written | input that shows it | evidently intended | confidence | as-written member | corrected member |
|---|---|---|---|---|---|---|
| services/expenseLogic.ts:8-21 | all expenses are folded into one balance table whatever their currency, and every transfer is tagged with the first expense's currency (line 45) | A pays 3000 yen for A and B, then B pays 1500 TWD for A and B: one transfer, B pays A 750 yen | each currency settled on its own: A pays B 750 TWD and B pays A 1500 yen | medium, not executed | Scenarios.MixedPooled | Currencies.CalculateByCurrency |
