/** The records the settlement routine consumes and produces.

    Amounts are exact rationals (`real`), so the equal split and every
    subtraction in the settlement loop are exact.  Fields that only matter
    for presentation (ids, descriptions, dates) are kept so the shape of an
    expense matches the application's, but nothing below reads them.
 */
module Types {

  /** The closed set of currency tags the application knows. */
  datatype Currency = TWD | JPY

  /** One recorded expense.  `participants` is a sequence, not a set: the
      amount is divided by its length and a name listed twice is debited
      twice. */
  datatype Expense = Expense(
    id: string,
    payer: string,
    amount: real,
    currency: Currency,
    description: string,
    date: string,
    isShared: bool,
    participants: seq<string>
  )

  /** One settlement instruction: `from` pays `amount` to `to`. */
  datatype DebtSummary = DebtSummary(
    from: string,
    to: string,
    amount: real,
    currency: Currency
  )
}
