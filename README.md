# Loan repayment engine — a verified Dafny model

This project models the loan service of a Laravel banking back end
(`app/Services/LoanService.php`). The service does two things.

- **Creating a loan** (`createLoan`). It stores a loan that owes its whole
  principal and is Due. It then splits the principal into `terms` monthly
  installments ("scheduled repayments"). Every installment but the last gets
  the principal divided by `terms`, rounded down. The last one gets the rest.
  Installment *i* falls due *i* months after the processing date.
- **Repaying a loan** (`repayLoan`). It records the received repayment. It then
  walks the loan's Due and Partial installments in due-date order and pays them
  from a running remainder (`updateScheduledRepayments`). Finally it
  recomputes the loan's outstanding amount and status.

Modules, one per part of the service:

- `Entities` (`entities.dfy`): installments, received repayments, statuses, the
  row invariant `WellFormed`, and sums over rows.
- `ScheduleBuilder` (`schedule.dfy`): the schedule as a function, and its
  conservation, rounding and due-date lemmas.
- `Allocation` (`allocation.dfy`):
  - the visit order `OpenByDue`: the open rows sorted by (due date, index);
  - the walk `Allocate`, and `Waterfall`, the walk over that order;
  - the lemmas about frame, first-in-first-out order, bounds, surplus and
    conservation.
- `Rollup` (`rollup.dfy`): the code's two-term formula for the loan's new
  outstanding amount, and its bounds.
- `LoanService` (`loan_service.dfy`): the class `Loan`. Its outstanding amount
  and status are fields updated in place. Its scheduled repayments are an
  `array` the walk updates row by row. Its received repayments are an
  append-only `seq`. The methods `RecordReceivedRepayment`,
  `UpdateScheduledRepayments` and `RepayLoan` mirror the source's loops and
  assignments. The module-level method `CreateLoan` runs the schedule loop. The
  methods are proved against the functions above.
- `Scenarios` (`scenarios.dfy`): concrete loans that show the policies at work.

Amounts are unbounded integers in minor currency units. Dates are abstract
integers. "Add *n* months" is a parameter `addMonths` of the schedule builder.
Wherever a lemma needs it, it is assumed to be the identity at 0 and strictly
increasing in *n* (`AddsMonths`).

Notes on behaviour the model keeps exactly as the code has it:

- **A Partial row records the amount applied.** When the remainder does not
  cover a row, line 186 sets the row's outstanding amount to the remainder
  itself, not to what is still owed. `AllocatePartialRecordsRemainder` states
  this for all inputs. `PartialRecordsAmountApplied` shows it on one row: a
  payment of 30 against 100 leaves the row recording 30. The rows' total
  outstanding drops by exactly the part of the payment used whenever no row
  ends Partial (`AllocateConserves`). A row owing o that is left Partial with
  remainder r drops by o − r instead of r, and the two agree only when o = 2r.
- **The loan rollup is not the sum of what the rows still owe.** It deducts
  the scheduled amount of every row due by the payment date, whatever its
  status, plus the outstanding amounts of the Partial rows.
  - Its first term does not depend on payments at all
    (`DueByCutoffIgnoresPayments`).
  - 3000 paid before the first due date of the 9000 loan repays row 1 but
    leaves the loan owing 9000 (`EarlyPaymentLeavesLoanOutstanding`). For an
    early payment that leaves a row Partial, the rollup deducts what that row
    records, before the floor at 0 and the one-unit snap. 4000 paid at the
    same date leaves row 2 recording 1000, and the loan drops to 8000
    (`EarlyPartialPayment`).
  - The 9000 loan in three terms, paid 3000 on each of its first two due
    dates, is settled at the second payment while its third row is still Due
    (`SecondPayment`). Other principals behave differently. With a
    non-negative principal, a three-term loan paid its share on each of its
    first two due dates owes principal − 3 × share. The rollup only snaps
    that to 0 when it is 0 or 1. For example, 11 in three terms (rows 3, 3,
    5) still owes 2 after two payments of 3.
- **Zero-amount installments.** These arise when the principal is smaller than
  the number of terms. Such a row is Due while owing nothing. So the row
  invariant is stated per status (`WellFormed`), not as "owes nothing exactly
  when Repaid". A payment that exactly equals the open rows' total can stop
  before such a row. So a payment of at least that total repays every row
  that owes something (`WaterfallSettlesOwed`). Only a payment *exceeding*
  the total is sure to leave every row Repaid (`WaterfallSurplus`).
- **Ties in the due-date order.** The query orders by due date only. The model
  breaks ties by the row's position in the schedule, which is also its
  creation order.
- **No input validation.** The service validates none of its inputs: a
  non-positive principal, term count or payment is not rejected. The model
  follows the code:
  - a payment that is not positive changes no row (`NonPositivePayment`), and
    it is still recorded and rolled up;
  - any principal is accepted, and a negative one can move a loan from 0
    back to Due: −9000 over three terms ends at 0 after a payment on the
    first due date, then owes 6000 after one on the second;
  - only `terms >= 1` is required (see below).

## Model

`Allocate` and `Waterfall` define the walk. `DueByCutoff` and
`PartialOutstanding` define the rollup's two sums. Their contracts state
little themselves; the lemma rows below state what they compute.

| member | source | states |
|---|---|---|
| `ScheduleBuilder.BaseInstallment` | app/Services/LoanService.php:41 | the share is the principal divided by terms rounded down: share × terms ≤ principal < share × terms + terms |
| `ScheduleBuilder.FinalInstallment` | app/Services/LoanService.php:42 | the last installment equals the share plus the division remainder, so it lies in [share, share + terms) |
| `ScheduleBuilder.Schedule` | app/Services/LoanService.php:45-58 | exactly `terms` rows, each owing its whole amount, Due, in the loan's currency |
| `ScheduleBuilder.SumsToPrincipal` | app/Services/LoanService.php:41-49 | the installment amounts add up to the principal exactly |
| `ScheduleBuilder.RoundingPolicy` | app/Services/LoanService.php:41-49 | the first terms − 1 rows are principal/terms rounded down; the last is principal − share × (terms − 1) and is the largest |
| `ScheduleBuilder.NonNegativeInstallments` | app/Services/LoanService.php:41-49 | with a non-negative principal no installment is negative; a principal below terms puts all of it in the last row |
| `ScheduleBuilder.ScheduleWellFormed` | app/Services/LoanService.php:52-58 | every freshly created row satisfies the row invariant |
| `ScheduleBuilder.DueDates` | app/Services/LoanService.php:45-46 | row i (1-based) is due at processedAt + i months; due dates increase strictly and none is the processing date |
| `Allocation.OpenByDue` | app/Services/LoanService.php:164-167 | the visit order lists exactly the Due and Partial rows, each once, in ascending (due date, index) order |
| `Allocation.OpenBelowInScheduleOrder` | app/Services/LoanService.php:164-166 | with a closed prefix, open rows after it and non-decreasing due dates, the visit order is schedule order |
| `Allocation.AllocateFrame` | app/Services/LoanService.php:170-173 | rows the walk does not visit are left exactly as they were |
| `Allocation.AllocateOutcome` | app/Services/LoanService.php:175-189 | each row ends unchanged, fully repaid (owing 0, Repaid), or Partial with a smaller positive outstanding amount |
| `Allocation.AllocateFifo` | app/Services/LoanService.php:170-192 | a visited row is touched only if every row visited before it was fully repaid |
| `Allocation.AllocateLeftover` | app/Services/LoanService.php:171-188 | the remainder never goes negative; it ends as payment − total owed by the visited rows, or 0 if the payment is smaller; a larger payment repays them all |
| `Allocation.AllocatePartialRecordsRemainder` | app/Services/LoanService.php:183-188 | the row left Partial records the remainder that reached it: the payment less what the rows before it owed |
| `Allocation.AllocateConserves` | app/Services/LoanService.php:177-188 | if no row ends newly Partial, the rows' total outstanding drops by exactly the part of the payment used |
| `Allocation.WaterfallRows` | app/Services/LoanService.php:164-192 | after a payment, well-formed rows stay well-formed; each keeps amount, currency and due date; each owes no more than before; statuses never move backwards; Repaid rows are untouched |
| `Allocation.WaterfallFifo` | app/Services/LoanService.php:164-192 | an open row is touched only if every open row due before it is fully repaid |
| `Allocation.WaterfallOnePartial` | app/Services/LoanService.php:183-189 | at most one row becomes Partial per payment, and every open row due after it is untouched |
| `Allocation.WaterfallSurplus` | app/Services/LoanService.php:170-192 | a payment below the open rows' total is used up; one above it repays every row, and the surplus is dropped |
| `Allocation.AllocateSettlesOwed` | app/Services/LoanService.php:170-188 | a remainder of at least the visited rows' total repays every visited row that owes something |
| `Allocation.WaterfallSettlesOwed` | app/Services/LoanService.php:164-192 | a payment of at least the open rows' total repays every row that owes something |
| `Allocation.AllocateStops` | app/Services/LoanService.php:170-173 | once the rows visited before a position owe at least the remainder between them, the row at that position is left exactly as it was, even a Due row owing nothing |
| `Allocation.WaterfallStops` | app/Services/LoanService.php:164-192 | every open row whose predecessors in visit order owe at least the payment between them is left exactly as it was |
| `Allocation.AllocateReaches` | app/Services/LoanService.php:171-189 | a visited row whose predecessors owe less than the remainder is repaid if the remainder also covers it, and otherwise left Partial recording the remainder less what its predecessors owed |
| `Allocation.WaterfallReaches` | app/Services/LoanService.php:164-192 | every open row the payment reaches in visit order ends repaid, or Partial recording the payment less what the open rows before it owed |
| `Allocation.NonPositivePayment` | app/Services/LoanService.php:171-173 | a payment that is not positive changes no row |
| `Rollup.NewOutstanding` | app/Services/LoanService.php:103-108 | the new outstanding amount is never negative and never a residue of exactly one unit |
| `Rollup.StatusFor` | app/Services/LoanService.php:111-119 | the loan is Repaid exactly when it owes 0 |
| `Rollup.RollupBounds` | app/Services/LoanService.php:93-103 | over well-formed rows the loan's outstanding amount stays within [0, previous] |
| `Rollup.RollupSettles` | app/Services/LoanService.php:103-108 | the loan ends at 0 exactly when the deductions come within one unit of its previous outstanding; otherwise it owes precisely previous − deductions |
| `Rollup.ResidualSnap` | app/Services/LoanService.php:105-108 | a residue of one unit is snapped to 0 and the loan becomes Repaid |
| `Rollup.DueByCutoffIgnoresPayments` | app/Services/LoanService.php:93-95 | the "due by payment date" term sums scheduled amounts of rows by due date alone, whatever their outstanding amounts and statuses |
| `LoanService.Loan.constructor` | app/Services/LoanService.php:30-38 | a new loan owes its whole principal, is Due and has no received repayments |
| `LoanService.CreateLoan` | app/Services/LoanService.php:25-67 | the stored rows are the schedule; the loan owes its principal and is Due; with a non-negative principal the loan invariant holds |
| `LoanService.Loan.RecordReceivedRepayment` | app/Services/LoanService.php:142-150 | exactly one record is appended, carrying the loan's id and the payment's amount, currency and date |
| `LoanService.Loan.UpdateScheduledRepayments` | app/Services/LoanService.php:159-193 | the rows afterwards are the waterfall of the rows before |
| `LoanService.Loan.RepayLoan` | app/Services/LoanService.php:79-131 | one record appended; rows walked; outstanding amount from the rollup formula; status given by `StatusFor`, so Repaid iff it owes 0; the loan invariant is preserved and the outstanding amount never grows |
| `Scenarios.FifoExample` | app/Services/LoanService.php:170-192 | rows of 100 and 100 due in consecutive months, paid 150: the first is Repaid, the second Partial owing 50 |
| `Scenarios.PartialRecordsAmountApplied` | app/Services/LoanService.php:183-188 | 30 paid against 100 leaves the row recording 30; the rows' total drops by 70 |
| `Scenarios.SecondPayment` | app/Services/LoanService.php:93-111 | a 9000 loan in 3 terms, paid 3000 on each of its first two due dates, is already settled while its third row is still Due |
| `Scenarios.FullSettlement` | app/Services/LoanService.php:25-131 | that loan, paid 3000 on each due date, ends owing 0 with every row Repaid |
| `Scenarios.EarlyPartialPayment` | app/Services/LoanService.php:97-108 | 4000 paid on the 9000 loan before any due date repays row 1, leaves row 2 Partial recording 1000, and lowers the loan to 8000 |
| `Scenarios.EarlyPaymentLeavesLoanOutstanding` | app/Services/LoanService.php:93-103 | 3000 paid before the first due date repays the first row, yet the loan still owes 9000 while the rows owe 6000 |

## Left out

- Database transactions (`DB::beginTransaction`, `commit`, `rollBack` at lines 27, 60-66, 81 and 123-129). No storage failure is modelled, so every call runs to completion.
- Eloquent persistence: `save()`, `update()` and relation loading. The rollup at line 93 reads `$loan->scheduledRepayments`, a lazily loaded relation that could be stale if it was loaded earlier. The model reads the rows as they stand after the walk.
- Carbon date parsing and month arithmetic (line 46), including its month-overflow behaviour. Dates are integers and month arithmetic is the caller-supplied `addMonths`. The `due_date <= receivedAt` filter at line 94 is an integer comparison.
- PHP's floating-point division and `floor` (line 41) and the float subtraction on line 42. The model uses exact integer division and subtraction. These agree with PHP for principals of magnitude below 2^53. Beyond that, PHP rounds the quotient to a double and the results differ. For example, 27021597764222975 (3 × 2^53 − 1) over 3 terms gives PHP rows of 9007199254740992 each, which sum to the principal plus 1.
- SumsToPrincipal and RoundingPolicy: they prove exact conservation and the rounding policy for every principal. They therefore describe the source only for principals of magnitude below 2^53, where its float arithmetic is exact.
- PHP's 64-bit integers. Amounts and dates are unbounded integers. The overflow of a PHP integer into a float is not modelled.
- Database-generated ids. The loan id is a parameter of `CreateLoan`. Rows are identified by their position. The id of each received-repayment row is not modelled.
- The user is reduced to a user id. Currency codes are opaque strings passed through unchanged.
- CreateLoan: requires `terms >= 1`. With `terms = 0` the division at line 41 throws. With negative terms the loop stores a loan with no installments. Neither case is modelled.
- The debit-card controller tests, the factories and the seeders are not part of this model. They hold HTTP and test-data code, not engine logic.
