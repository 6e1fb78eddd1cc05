/** The loan service (app/Services/LoanService.php): creating a loan with its
    repayment schedule, and applying a received payment to it. A loan is an
    object whose outstanding amount and status are updated in place; its
    scheduled repayments are a fixed-size table of rows that the payment walk
    updates in place; its received repayments are an append-only log. */
module LoanService {
  import opened Entities
  import opened ScheduleBuilder
  import opened Allocation
  import opened Rollup

  class Loan {
    const id: int
    const userId: int
    const amount: int           // the principal
    const currency: Currency
    const terms: int
    const processedAt: Date
    var outstanding: int
    var status: LoanStatus
    /** The loan's scheduled_repayments rows, in creation order. */
    const repayments: array<Installment>
    /** The received_repayments rows recorded against this loan, oldest first. */
    var received: seq<ReceivedRepayment>

    /** What creating a loan establishes and every payment keeps: one row
        per term, rows that add up to the principal and are each
        well-formed, an outstanding amount between zero and the principal,
        and received repayments that all point back at this loan. */
    ghost predicate Valid()
      reads this, repayments
    {
      repayments.Length == terms &&
      0 <= outstanding <= amount &&
      AllWellFormed(repayments[..]) &&
      SumAmount(repayments[..]) == amount &&
      (forall k :: 0 <= k < |received| ==> received[k].loanId == id)
    }

    /** A new loan row: it owes its whole principal and is Due. */
    constructor (id: int, userId: int, amount: int, currency: Currency, terms: int,
                 processedAt: Date, repayments: array<Installment>)
      ensures this.id == id && this.userId == userId && this.amount == amount
      ensures this.currency == currency && this.terms == terms && this.processedAt == processedAt
      ensures this.repayments == repayments
      ensures outstanding == amount && status == LoanDue && received == []
    {
      this.id := id;
      this.userId := userId;
      this.amount := amount;
      this.currency := currency;
      this.terms := terms;
      this.processedAt := processedAt;
      this.repayments := repayments;
      outstanding := amount;
      status := LoanDue;
      received := [];
    }

    /** Appends exactly one audit record, carrying this loan's id and the
        payment's amount, currency and date. */
    method RecordReceivedRepayment(payment: int, currencyCode: Currency, receivedAt: Date)
      returns (r: ReceivedRepayment)
      modifies this`received
      ensures r == ReceivedRepayment(id, payment, currencyCode, receivedAt)
      ensures received == old(received) + [r]
    {
      r := ReceivedRepayment(id, payment, currencyCode, receivedAt);
      received := received + [r];
    }

    /** Walks the open rows in due-date order and pays them from a running
        remainder, updating each visited row in place. */
    method UpdateScheduledRepayments(payment: int)
      modifies repayments
      ensures repayments[..] == Waterfall(old(repayments[..]), payment)
    {
      var remainingAmount := payment;
      ghost var before := repayments[..];
      var ord := OpenByDue(repayments[..]);
      var t := 0;
      assert ord[t..] == ord;
      while t < |ord|
        invariant 0 <= t <= |ord|
        invariant InRange(repayments[..], ord)
        invariant Allocate(repayments[..], ord[t..], remainingAmount) == Allocate(before, ord, payment)
      {
        if remainingAmount <= 0 {
          break;
        }
        var k := ord[t];
        var repaymentOutstanding := repayments[k].outstanding;
        assert ord[t..][1..] == ord[t + 1..];
        if remainingAmount >= repaymentOutstanding {
          repayments[k] := repayments[k].(outstanding := 0, status := Repaid);
          remainingAmount := remainingAmount - repaymentOutstanding;
        } else {
          repayments[k] := repayments[k].(outstanding := remainingAmount, status := Partial);
          remainingAmount := 0;
        }
        t := t + 1;
      }
    }

    /** Applies one received payment: records it, walks the schedule, then
        recomputes the loan's outstanding amount and status from the rows as
        they stand after the walk. */
    method RepayLoan(payment: int, currencyCode: Currency, receivedAt: Date)
      returns (r: ReceivedRepayment)
      modifies this`received, this`outstanding, this`status, repayments
      ensures r == ReceivedRepayment(id, payment, currencyCode, receivedAt)
      ensures received == old(received) + [r]
      ensures repayments[..] == Waterfall(old(repayments[..]), payment)
      ensures outstanding == NewOutstanding(old(outstanding), repayments[..], receivedAt)
      ensures status == StatusFor(outstanding)
      ensures old(Valid()) ==> Valid() && outstanding <= old(outstanding)
    {
      ghost var wasValid := Valid();
      ghost var before := repayments[..];
      r := RecordReceivedRepayment(payment, currencyCode, receivedAt);
      UpdateScheduledRepayments(payment);

      var amountReceipt := DueByCutoff(repayments[..], receivedAt);
      var amountPartial := PartialOutstanding(repayments[..]);
      outstanding := if outstanding - (amountReceipt + amountPartial) > 0
                     then outstanding - (amountReceipt + amountPartial) else 0;
      if outstanding <= 1 {
        outstanding := 0;
      }
      if outstanding == 0 {
        status := LoanRepaid;
      } else {
        status := LoanDue;
      }

      if wasValid {
        WaterfallRows(before, payment);
        SumAmountOfSameTerms(before, repayments[..]);
        RollupBounds(old(outstanding), repayments[..], receivedAt);
      }
    }
  }

  /** Creates a loan and its schedule: `terms` rows, row i (1-based) due i
      months after the processing date, all Due and owing their whole
      amount. */
  method CreateLoan(id: int, userId: int, amount: int, currencyCode: Currency, terms: int,
                    processedAt: Date, addMonths: MonthAdder)
    returns (loan: Loan)
    requires terms >= 1
    ensures fresh(loan) && fresh(loan.repayments)
    ensures loan.id == id && loan.userId == userId && loan.amount == amount
    ensures loan.currency == currencyCode && loan.terms == terms && loan.processedAt == processedAt
    ensures loan.outstanding == amount && loan.status == LoanDue && loan.received == []
    ensures loan.repayments[..] == Schedule(amount, terms, currencyCode, processedAt, addMonths)
    ensures amount >= 0 ==> loan.Valid()
  {
    var rows := new Installment[terms];
    loan := new Loan(id, userId, amount, currencyCode, terms, processedAt, rows);

    var repaymentAmount := amount / terms;
    var remainingAmount := amount - repaymentAmount * (terms - 1);

    for i := 1 to terms + 1
      modifies rows
      invariant forall k :: 0 <= k < i - 1 ==>
        rows[k] == Schedule(amount, terms, currencyCode, processedAt, addMonths)[k]
    {
      var dueDate := addMonths(processedAt, i);
      var currentAmount := if i == terms then remainingAmount else repaymentAmount;
      rows[i - 1] := Installment(currentAmount, currentAmount, currencyCode, dueDate, Due);
    }

    SumsToPrincipal(amount, terms, currencyCode, processedAt, addMonths);
    if amount >= 0 {
      ScheduleWellFormed(amount, terms, currencyCode, processedAt, addMonths);
    }
  }
}
