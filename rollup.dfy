/** The loan-level rollup that follows the walk in repayLoan
    (app/Services/LoanService.php): the loan's outstanding amount is reduced
    by the scheduled amounts due on or before the payment date, whatever
    their status, plus the outstanding amounts of the Partial rows; the
    result is floored at zero, a residue of one unit is snapped to zero, and
    the loan is Repaid exactly when nothing is left. */
module Rollup {
  import opened Entities

  /** A row's share of the first deduction: its scheduled amount when it is
      due on or before the cutoff. */
  function DueShare(r: Installment, cutoff: Date): int {
    if r.due <= cutoff then r.amount else 0
  }

  /** A row's share of the second deduction: its outstanding amount when it
      is Partial. */
  function PartialShare(r: Installment): int {
    if r.status == Partial then r.outstanding else 0
  }

  /** Sum of `amount` over the rows due on or before the cutoff. */
  function DueByCutoff(s: seq<Installment>, cutoff: Date): int {
    if s == [] then 0
    else DueByCutoff(s[..|s| - 1], cutoff) + DueShare(s[|s| - 1], cutoff)
  }

  /** Sum of `outstanding` over the Partial rows. */
  function PartialOutstanding(s: seq<Installment>): int {
    if s == [] then 0
    else PartialOutstanding(s[..|s| - 1]) + PartialShare(s[|s| - 1])
  }

  /** The loan's new outstanding amount, from its previous one and the rows
      as they stand after the walk. */
  function NewOutstanding(previous: int, s: seq<Installment>, receivedAt: Date): (r: int)
    ensures r >= 0 && r != 1
  {
    var deducted := DueByCutoff(s, receivedAt) + PartialOutstanding(s);
    var floored := if previous - deducted > 0 then previous - deducted else 0;
    if floored <= 1 then 0 else floored
  }

  /** The loan status that goes with an outstanding amount. */
  function StatusFor(outstanding: int): (st: LoanStatus)
    ensures st == LoanRepaid <==> outstanding == 0
  {
    if outstanding == 0 then LoanRepaid else LoanDue
  }

  lemma {:induction false} DueByCutoffNonNegative(s: seq<Installment>, cutoff: Date)
    requires AllWellFormed(s)
    ensures DueByCutoff(s, cutoff) >= 0
  {
    if s != [] {
      DueByCutoffNonNegative(s[..|s| - 1], cutoff);
    }
  }

  lemma {:induction false} PartialOutstandingNonNegative(s: seq<Installment>)
    requires AllWellFormed(s)
    ensures PartialOutstanding(s) >= 0
  {
    if s != [] {
      PartialOutstandingNonNegative(s[..|s| - 1]);
    }
  }

  /** The rollup's first term depends on the schedule alone: rows that agree
      on their amounts and due dates give the same sum, whatever their
      outstanding amounts and statuses. */
  lemma {:induction false} DueByCutoffIgnoresPayments(s: seq<Installment>, t: seq<Installment>, cutoff: Date)
    requires |s| == |t|
    requires forall k :: 0 <= k < |s| ==> s[k].amount == t[k].amount && s[k].due == t[k].due
    ensures DueByCutoff(s, cutoff) == DueByCutoff(t, cutoff)
  {
    if s != [] {
      DueByCutoffIgnoresPayments(s[..|s| - 1], t[..|t| - 1], cutoff);
    }
  }

  /** Over well-formed rows the loan's outstanding amount never goes negative
      and never grows. */
  lemma RollupBounds(previous: int, s: seq<Installment>, receivedAt: Date)
    requires previous >= 0 && AllWellFormed(s)
    ensures 0 <= NewOutstanding(previous, s, receivedAt) <= previous
  {
    DueByCutoffNonNegative(s, receivedAt);
    PartialOutstandingNonNegative(s);
  }

  /** The loan is settled exactly when the deductions come within one unit
      of its previous outstanding amount; otherwise it owes precisely the
      difference. */
  lemma RollupSettles(previous: int, s: seq<Installment>, receivedAt: Date)
    ensures var deducted := DueByCutoff(s, receivedAt) + PartialOutstanding(s);
      (NewOutstanding(previous, s, receivedAt) == 0 <==> previous - deducted <= 1) &&
      (NewOutstanding(previous, s, receivedAt) != 0 ==> NewOutstanding(previous, s, receivedAt) == previous - deducted)
  {
  }

  /** Residual snap: a loan left owing a single unit is settled. */
  lemma ResidualSnap(previous: int, s: seq<Installment>, receivedAt: Date)
    requires previous - (DueByCutoff(s, receivedAt) + PartialOutstanding(s)) == 1
    ensures NewOutstanding(previous, s, receivedAt) == 0
    ensures StatusFor(NewOutstanding(previous, s, receivedAt)) == LoanRepaid
  {
  }
}
