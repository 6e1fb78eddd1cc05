/** The schedule builder: how a loan's principal is split into monthly
    installments when the loan is created (app/Services/LoanService.php,
    createLoan). The first terms - 1 installments carry the principal divided
    by terms, rounded down; the last one absorbs the remainder. */
module ScheduleBuilder {
  import opened Entities

  /** Calendar arithmetic "date plus n months", supplied by the caller. */
  type MonthAdder = (Date, nat) -> Date

  /** What the schedule relies on from month arithmetic: adding no months is
      the identity and adding more months gives a strictly later date. */
  ghost predicate AddsMonths(addMonths: MonthAdder) {
    (forall d: Date :: addMonths(d, 0) == d) &&
    (forall d: Date, m: nat, n: nat :: m < n ==> addMonths(d, m) < addMonths(d, n))
  }

  /** The rounded-down share of each installment but the last. Dafny's `/`
      with a positive divisor rounds toward negative infinity, as PHP's
      floor of the quotient does. */
  function BaseInstallment(amount: int, terms: int): (b: int)
    requires terms >= 1
    ensures b * terms <= amount < b * terms + terms
  {
    amount / terms
  }

  /** The last installment: the principal less the terms - 1 base shares. */
  function FinalInstallment(amount: int, terms: int): (f: int)
    requires terms >= 1
    ensures f == BaseInstallment(amount, terms) + amount % terms
    ensures BaseInstallment(amount, terms) <= f < BaseInstallment(amount, terms) + terms
  {
    var b := BaseInstallment(amount, terms);
    assert b * (terms - 1) == b * terms - b;
    amount - b * (terms - 1)
  }

  /** Amount of installment i (1-based). */
  function InstallmentAmount(amount: int, terms: int, i: int): int
    requires 1 <= i <= terms
  {
    if i == terms then FinalInstallment(amount, terms) else BaseInstallment(amount, terms)
  }

  /** Installment i (1-based) as createLoan writes it. */
  function ScheduledRow(amount: int, terms: int, currency: Currency, processedAt: Date,
                        addMonths: MonthAdder, i: int): Installment
    requires 1 <= i <= terms
  {
    var a := InstallmentAmount(amount, terms, i);
    Installment(a, a, currency, addMonths(processedAt, i), Due)
  }

  /** The whole schedule, in creation order: exactly `terms` rows, each still
      owing its whole amount and Due. */
  function Schedule(amount: int, terms: int, currency: Currency, processedAt: Date,
                    addMonths: MonthAdder): (s: seq<Installment>)
    requires terms >= 1
    ensures |s| == terms
    ensures forall k :: 0 <= k < |s| ==>
      s[k].outstanding == s[k].amount && s[k].status == Due && s[k].currency == currency
  {
    seq(terms, k requires 0 <= k < terms => ScheduledRow(amount, terms, currency, processedAt, addMonths, k + 1))
  }

  /** Conservation: the installment amounts add up to the principal exactly. */
  lemma SumsToPrincipal(amount: int, terms: int, currency: Currency, processedAt: Date, addMonths: MonthAdder)
    requires terms >= 1
    ensures SumAmount(Schedule(amount, terms, currency, processedAt, addMonths)) == amount
  {
    var s := Schedule(amount, terms, currency, processedAt, addMonths);
    var b := BaseInstallment(amount, terms);
    SumAmountOfEqualRows(s[..terms - 1], b);
    assert s[..|s| - 1] == s[..terms - 1];
  }

  /** Rounding policy: every installment but the last is the rounded-down
      share, the last is the principal less the others, so it is the largest
      and exceeds the share by the division remainder only. */
  lemma RoundingPolicy(amount: int, terms: int, currency: Currency, processedAt: Date, addMonths: MonthAdder)
    requires terms >= 1
    ensures var s := Schedule(amount, terms, currency, processedAt, addMonths);
      (forall k :: 0 <= k < terms - 1 ==> s[k].amount == amount / terms) &&
      s[terms - 1].amount == amount - (amount / terms) * (terms - 1) &&
      s[terms - 1].amount == amount / terms + amount % terms &&
      (forall k :: 0 <= k < terms ==> s[k].amount <= s[terms - 1].amount)
  {
  }

  /** With a non-negative principal no installment is negative, and
      `principal < terms` leaves every installment but the last at zero. */
  lemma NonNegativeInstallments(amount: int, terms: int, currency: Currency, processedAt: Date, addMonths: MonthAdder)
    requires terms >= 1 && amount >= 0
    ensures var s := Schedule(amount, terms, currency, processedAt, addMonths);
      (forall k :: 0 <= k < terms ==> 0 <= s[k].amount) &&
      (amount < terms ==> (forall k :: 0 <= k < terms - 1 ==> s[k].amount == 0) && s[terms - 1].amount == amount)
  {
    var b := BaseInstallment(amount, terms);
    ShareBounds(amount, terms);
    assert 0 <= b <= FinalInstallment(amount, terms);
    if amount < terms {
      assert b == 0 && FinalInstallment(amount, terms) == amount;
    }
  }

  /** The rounded-down share of a non-negative principal is non-negative,
      and zero when the principal is below the number of terms. */
  lemma ShareBounds(amount: int, terms: int)
    requires terms >= 1 && amount >= 0
    ensures BaseInstallment(amount, terms) >= 0
    ensures amount < terms ==> BaseInstallment(amount, terms) == 0
  {
  }

  /** A freshly built schedule satisfies the row invariant throughout. */
  lemma ScheduleWellFormed(amount: int, terms: int, currency: Currency, processedAt: Date, addMonths: MonthAdder)
    requires terms >= 1 && amount >= 0
    ensures AllWellFormed(Schedule(amount, terms, currency, processedAt, addMonths))
  {
    NonNegativeInstallments(amount, terms, currency, processedAt, addMonths);
  }

  /** Installment i (1-based) falls i months after the processing date, so
      the due dates increase strictly and none is the processing date. */
  lemma DueDates(amount: int, terms: int, currency: Currency, processedAt: Date, addMonths: MonthAdder)
    requires terms >= 1 && AddsMonths(addMonths)
    ensures var s := Schedule(amount, terms, currency, processedAt, addMonths);
      (forall k :: 0 <= k < terms ==> s[k].due == addMonths(processedAt, k + 1) && processedAt < s[k].due) &&
      (forall j, k :: 0 <= j < k < terms ==> s[j].due < s[k].due)
  {
    var s := Schedule(amount, terms, currency, processedAt, addMonths);
    forall k | 0 <= k < terms
      ensures processedAt < s[k].due
    {
      assert addMonths(processedAt, 0) == processedAt;
      assert addMonths(processedAt, 0) < addMonths(processedAt, k + 1);
    }
  }
}
