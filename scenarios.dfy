/** Worked examples of the engine on concrete loans, stated over the
    functions that specify LoanService.Loan.RepayLoan. They show the policies
    that are easy to misread: first-in-first-out allocation, the Partial row
    recording the amount applied, and a loan-level rollup that is not the
    sum of what the rows still owe. */
module Scenarios {
  import opened Entities
  import opened ScheduleBuilder
  import opened Allocation
  import opened Rollup

  /** A calendar in which consecutive months are consecutive dates. */
  function Monthly(d: Date, n: nat): (r: Date)
    ensures r > d || n == 0
  {
    d + n
  }

  lemma MonthlyAddsMonths()
    ensures AddsMonths(Monthly)
  {
  }

  function Row(amount: int, outstanding: int, due: Date, status: RepaymentStatus): Installment {
    Installment(amount, outstanding, "SGD", due, status)
  }

  /** Two rows of 100 due in consecutive months and one payment of 150: the
      older row is repaid, the newer one is left Partial owing 50. */
  lemma FifoExample()
    ensures Waterfall([Row(100, 100, 1, Due), Row(100, 100, 2, Due)], 150)
         == [Row(100, 0, 1, Repaid), Row(100, 50, 2, Partial)]
  {
    var s := [Row(100, 100, 1, Due), Row(100, 100, 2, Due)];
    OpenBelowInScheduleOrder(s, 0, 2);
    assert OpenByDue(s) == [0, 1];
  }

  /** A payment of 30 against a row owing 100 leaves the row recording 30,
      the amount applied, so the rows' total outstanding drops by 70. */
  lemma PartialRecordsAmountApplied()
    ensures Waterfall([Row(100, 100, 1, Due)], 30) == [Row(100, 30, 1, Partial)]
    ensures SumOutstanding([Row(100, 100, 1, Due)]) - SumOutstanding(Waterfall([Row(100, 100, 1, Due)], 30)) == 70
  {
    var s := [Row(100, 100, 1, Due)];
    OpenBelowInScheduleOrder(s, 0, 1);
    assert OpenByDue(s) == [0];
  }

  // A loan of 9000 over 3 terms processed at date 0, step by step.

  /** The 9000 loan with its first k rows repaid. */
  function Settled(k: nat): seq<Installment> {
    seq(3, i requires 0 <= i < 3 => if i < k then Row(3000, 0, i + 1, Repaid) else Row(3000, 3000, i + 1, Due))
  }

  lemma Schedule9000()
    ensures Schedule(9000, 3, "SGD", 0, Monthly) == Settled(0)
  {
  }

  /** A payment equal to the oldest open row's outstanding amount repays that
      row and stops. */
  lemma {:induction false} ExactPaymentStep(s: seq<Installment>, m: nat, payment: int)
    requires m < |s| && payment > 0 && s[m].outstanding == payment
    requires forall k :: 0 <= k < |s| ==> (Open(s[k]) <==> m <= k)
    requires forall j, k :: 0 <= j < k < |s| ==> s[j].due <= s[k].due
    ensures Waterfall(s, payment) == s[m := s[m].(outstanding := 0, status := Repaid)]
  {
    OpenBelowInScheduleOrder(s, m, |s|);
    var ord := Span(m, |s|);
    assert OpenByDue(s) == ord && ord[0] == m;
    var s' := s[m := s[m].(outstanding := 0, status := Repaid)];
    assert Allocate(s, ord, payment) == Allocate(s', ord[1..], 0);
  }

  /** Each payment of 3000 repays the oldest row still open. */
  lemma SettleNext(k: nat)
    requires k < 3
    ensures Waterfall(Settled(k), 3000) == Settled(k + 1)
  {
    var s := Settled(k);
    var s' := s[k := s[k].(outstanding := 0, status := Repaid)];
    assert s' == Settled(k + 1);
    ExactPaymentStep(s, k, 3000);
  }

  /** The rollup's two sums over a three-row schedule, row by row. */
  lemma ThreeRowSums(a: Installment, b: Installment, c: Installment, cutoff: Date)
    ensures DueByCutoff([a, b, c], cutoff) == DueShare(a, cutoff) + DueShare(b, cutoff) + DueShare(c, cutoff)
    ensures PartialOutstanding([a, b, c]) == PartialShare(a) + PartialShare(b) + PartialShare(c)
    ensures SumOutstanding([a, b, c]) == a.outstanding + b.outstanding + c.outstanding
  {
    assert [a, b, c][..2] == [a, b];
    assert [a, b][..1] == [a];
    assert [a][..0] == [];
    assert DueByCutoff([a], cutoff) == DueShare(a, cutoff);
    assert DueByCutoff([a, b], cutoff) == DueShare(a, cutoff) + DueShare(b, cutoff);
    assert PartialOutstanding([a]) == PartialShare(a);
    assert PartialOutstanding([a, b]) == PartialShare(a) + PartialShare(b);
    assert SumOutstanding([a]) == a.outstanding;
    assert SumOutstanding([a, b]) == a.outstanding + b.outstanding;
  }

  /** On the 9000 loan with k rows repaid and nothing Partial, the rollup
      deducts 3000 for every row due by the cutoff. */
  lemma SettledSums(k: nat, cutoff: Date)
    requires k <= 3
    ensures DueByCutoff(Settled(k), cutoff)
         == (if 1 <= cutoff then 3000 else 0) + (if 2 <= cutoff then 3000 else 0) + (if 3 <= cutoff then 3000 else 0)
    ensures PartialOutstanding(Settled(k)) == 0
    ensures SumOutstanding(Settled(k)) == 3000 * (3 - k)
  {
    var s := Settled(k);
    assert s == [s[0], s[1], s[2]];
    ThreeRowSums(s[0], s[1], s[2], cutoff);
  }

  /** First payment, on the first due date: the first row is repaid and
      the rollup deducts that row's amount. */
  lemma FirstPayment()
    ensures Waterfall(Settled(0), 3000) == Settled(1) && NewOutstanding(9000, Settled(1), 1) == 6000
  {
    SettleNext(0);
    SettledSums(1, 1);
  }

  /** Second payment, on the second due date: the rollup deducts both rows
      due so far, 6000, and settles the loan although the third row is still
      Due. */
  lemma SecondPayment()
    ensures Waterfall(Settled(1), 3000) == Settled(2) && NewOutstanding(6000, Settled(2), 2) == 0
    ensures StatusFor(0) == LoanRepaid && Settled(2)[2] == Row(3000, 3000, 3, Due)
  {
    SettleNext(1);
    SettledSums(2, 2);
  }

  /** Third payment, on the last due date: every row is repaid and the loan
      still owes nothing. */
  lemma ThirdPayment()
    ensures Waterfall(Settled(2), 3000) == Settled(3) && NewOutstanding(0, Settled(3), 3) == 0
    ensures forall k :: 0 <= k < 3 ==> Settled(3)[k].status == Repaid && Settled(3)[k].outstanding == 0
  {
    SettleNext(2);
    SettledSums(3, 3);
  }

  /** Paid 3000 on each due date (dates 1, 2 and 3), the 9000 loan created
      over 3 terms ends Repaid, owing nothing, with every row Repaid. */
  lemma FullSettlement()
    ensures var s1 := Waterfall(Schedule(9000, 3, "SGD", 0, Monthly), 3000);
      var s2 := Waterfall(s1, 3000);
      var s3 := Waterfall(s2, 3000);
      NewOutstanding(NewOutstanding(NewOutstanding(9000, s1, 1), s2, 2), s3, 3) == 0 &&
      forall k :: 0 <= k < 3 ==> s3[k].status == Repaid && s3[k].outstanding == 0
  {
    Schedule9000();
    FirstPayment();
    SecondPayment();
    ThirdPayment();
  }

  /** A payment ahead of schedule repays the first row, yet the loan's
      outstanding amount does not move, although the rows now owe 6000:
      nothing is due by the payment date and no row is Partial. */
  lemma EarlyPaymentLeavesLoanOutstanding()
    ensures var s1 := Waterfall(Schedule(9000, 3, "SGD", 0, Monthly), 3000);
      s1[0] == Row(3000, 0, 1, Repaid) &&
      SumOutstanding(s1) == 6000 &&
      NewOutstanding(9000, s1, 0) == 9000
  {
    Schedule9000();
    SettleNext(0);
    EarlyRollup();
  }

  /** A payment covering the oldest open row but not the next one repays
      the first and leaves the second Partial, recording the rest. */
  lemma {:induction false} PartialPaymentStep(s: seq<Installment>, payment: int)
    requires |s| == 3 && 0 <= s[0].outstanding < payment < s[0].outstanding + s[1].outstanding
    requires forall k :: 0 <= k < |s| ==> Open(s[k])
    requires forall j, k :: 0 <= j < k < |s| ==> s[j].due <= s[k].due
    ensures Waterfall(s, payment)
         == s[0 := s[0].(outstanding := 0, status := Repaid)]
             [1 := s[1].(outstanding := payment - s[0].outstanding, status := Partial)]
  {
    var ord := Span(0, |s|);
    assert OpenByDue(s) == ord by {
      OpenBelowInScheduleOrder(s, 0, |s|);
    }
    assert ord[0] == 0 && ord[1] == 1;
    AllocateTwoSteps(s, ord, payment);
  }

  /** The walk over two listed rows where the payment covers the first but
      not the second. */
  lemma AllocateTwoSteps(s: seq<Installment>, ord: seq<nat>, payment: int)
    requires InRange(s, ord) && |ord| >= 2 && ord[0] != ord[1]
    requires 0 <= s[ord[0]].outstanding < payment < s[ord[0]].outstanding + s[ord[1]].outstanding
    ensures Allocate(s, ord, payment).0
         == s[ord[0] := s[ord[0]].(outstanding := 0, status := Repaid)]
             [ord[1] := s[ord[1]].(outstanding := payment - s[ord[0]].outstanding, status := Partial)]
  {
    var rem := payment - s[ord[0]].outstanding;
    var s1 := s[ord[0] := s[ord[0]].(outstanding := 0, status := Repaid)];
    var s2 := s1[ord[1] := s1[ord[1]].(outstanding := rem, status := Partial)];
    assert Allocate(s, ord, payment) == Allocate(s1, ord[1..], rem);
    assert ord[1..][0] == ord[1] && s1[ord[1]] == s[ord[1]];
    assert Allocate(s1, ord[1..], rem) == Allocate(s2, ord[1..][1..], 0);
  }

  /** An early payment that leaves a row Partial does lower the loan: 4000
      paid before the first due date repays row 1 and leaves row 2 Partial
      recording 1000, and the rollup deducts that 1000. */
  lemma EarlyPartialPayment()
    ensures Waterfall(Settled(0), 4000) == [Row(3000, 0, 1, Repaid), Row(3000, 1000, 2, Partial), Row(3000, 3000, 3, Due)]
    ensures NewOutstanding(9000, Waterfall(Settled(0), 4000), 0) == 8000
  {
    PartialPaymentStep(Settled(0), 4000);
    EarlyPartialRollup();
  }

  /** The rollup over those rows at date 0: nothing is due, and the Partial
      row records 1000. */
  lemma EarlyPartialRollup()
    ensures NewOutstanding(9000, [Row(3000, 0, 1, Repaid), Row(3000, 1000, 2, Partial), Row(3000, 3000, 3, Due)], 0) == 8000
  {
    ThreeRowSums(Row(3000, 0, 1, Repaid), Row(3000, 1000, 2, Partial), Row(3000, 3000, 3, Due), 0);
  }

  /** Before the first due date nothing is due and no row is Partial, so
      the rollup deducts nothing. */
  lemma EarlyRollup()
    ensures Settled(1)[0] == Row(3000, 0, 1, Repaid)
    ensures SumOutstanding(Settled(1)) == 6000 && NewOutstanding(9000, Settled(1), 0) == 9000
  {
    SettledSums(1, 0);
  }
}
