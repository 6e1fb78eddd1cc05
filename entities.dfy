/** Entities of the loan-repayment engine: scheduled installments, received
    repayments and the statuses they move through, with the sums over a
    loan's installments that the engine reads. Amounts are integers in minor
    currency units; dates are abstract integers ordered like calendar dates. */
module Entities {

  type Date = int
  type Currency = string

  /** Status of one scheduled installment. */
  datatype RepaymentStatus = Due | Partial | Repaid

  /** Status of a loan. */
  datatype LoanStatus = LoanDue | LoanRepaid

  /** One row of a loan's repayment schedule. */
  datatype Installment = Installment(
    amount: int,          // the scheduled portion, fixed at creation
    outstanding: int,     // what the row still records as owed
    currency: Currency,
    due: Date,
    status: RepaymentStatus)

  /** The audit record of one received payment. */
  datatype ReceivedRepayment = ReceivedRepayment(
    loanId: int,
    amount: int,
    currency: Currency,
    receivedAt: Date)

  /** The rows the allocator selects: those still Due or Partial. */
  predicate Open(r: Installment) {
    r.status == Due || r.status == Partial
  }

  /** What the engine keeps true of every row: the outstanding amount lies in
      [0, amount]; an untouched Due row owes its whole amount, a Partial row
      owes strictly between nothing and everything, a Repaid row owes nothing. */
  predicate WellFormed(r: Installment) {
    0 <= r.outstanding <= r.amount &&
    (r.status == Due ==> r.outstanding == r.amount) &&
    (r.status == Partial ==> 0 < r.outstanding < r.amount) &&
    (r.status == Repaid ==> r.outstanding == 0)
  }

  predicate AllWellFormed(s: seq<Installment>) {
    forall k :: 0 <= k < |s| ==> WellFormed(s[k])
  }

  /** Position of a status on the way Due -> Partial -> Repaid. */
  function Rank(st: RepaymentStatus): (n: nat)
    ensures n <= 2
    ensures (n == 2) == (st == Repaid)
  {
    match st
    case Due => 0
    case Partial => 1
    case Repaid => 2
  }

  /** A status change that never moves backwards. */
  predicate Advances(before: RepaymentStatus, after: RepaymentStatus) {
    Rank(before) <= Rank(after)
  }

  /** Two rows that agree on everything fixed at creation. */
  predicate SameTerms(a: Installment, b: Installment) {
    a.amount == b.amount && a.currency == b.currency && a.due == b.due
  }

  /** Sum of the scheduled amounts. */
  function SumAmount(s: seq<Installment>): int {
    if s == [] then 0 else SumAmount(s[..|s| - 1]) + s[|s| - 1].amount
  }

  /** Sum of the outstanding amounts. */
  function SumOutstanding(s: seq<Installment>): int {
    if s == [] then 0 else SumOutstanding(s[..|s| - 1]) + s[|s| - 1].outstanding
  }

  /** Rows that agree pointwise on their scheduled amounts have the same total. */
  lemma {:induction false} SumAmountOfSameTerms(s: seq<Installment>, t: seq<Installment>)
    requires |s| == |t|
    requires forall k :: 0 <= k < |s| ==> s[k].amount == t[k].amount
    ensures SumAmount(s) == SumAmount(t)
  {
    if s != [] {
      SumAmountOfSameTerms(s[..|s| - 1], t[..|t| - 1]);
    }
  }

  /** Rows that all carry the same amount b sum to |s| * b. */
  lemma {:induction false} SumAmountOfEqualRows(s: seq<Installment>, b: int)
    requires forall k :: 0 <= k < |s| ==> s[k].amount == b
    ensures SumAmount(s) == |s| * b
  {
    if s != [] {
      SumAmountOfEqualRows(s[..|s| - 1], b);
    }
  }

  /** Replacing one row changes the outstanding total by the difference. */
  lemma {:induction false} SumOutstandingUpdate(s: seq<Installment>, k: nat, x: Installment)
    requires k < |s|
    ensures SumOutstanding(s[k := x]) == SumOutstanding(s) - s[k].outstanding + x.outstanding
  {
    var n := |s| - 1;
    if k < n {
      assert s[k := x][..n] == s[..n][k := x];
      SumOutstandingUpdate(s[..n], k, x);
    } else {
      assert s[k := x][..n] == s[..n];
    }
  }
}
