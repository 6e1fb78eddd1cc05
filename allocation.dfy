/** The repayment allocator's walk (app/Services/LoanService.php,
    updateScheduledRepayments): select the loan's Due and Partial
    installments, order them by due date, and pay them oldest first from a
    running remainder. */
module Allocation {
  import opened Entities

  // ---------------------------------------------------------------------
  // The visit order: the query `where status in (due, partial)
  // orderBy due_date`. Rows are identified by their index in the loan's
  // schedule; equal due dates are ordered by that index.
  // ---------------------------------------------------------------------

  /** Row i comes strictly before row j: earlier due date, or the same due
      date and a smaller index. */
  predicate Precedes(s: seq<Installment>, i: int, j: int)
    requires 0 <= i < |s| && 0 <= j < |s|
  {
    s[i].due < s[j].due || (s[i].due == s[j].due && i < j)
  }

  /** `ord` lists indices of `s` in strictly ascending (due date, index)
      order, hence without repetition. */
  predicate ByDue(s: seq<Installment>, ord: seq<nat>) {
    (forall t :: 0 <= t < |ord| ==> ord[t] < |s|) &&
    (forall t, u :: 0 <= t < u < |ord| ==> Precedes(s, ord[t], ord[u]))
  }

  /** The head of an ordered listing precedes every later entry. */
  lemma HeadPrecedesRest(s: seq<Installment>, ord: seq<nat>)
    requires ByDue(s, ord) && ord != []
    ensures forall x :: x in ord[1..] ==> Precedes(s, ord[0], x)
  {
    forall x | x in ord[1..]
      ensures Precedes(s, ord[0], x)
    {
      var u :| 0 <= u < |ord[1..]| && ord[1..][u] == x;
      assert ord[u + 1] == x;
    }
  }

  /** In an ordered listing, the position order agrees with Precedes. */
  lemma PositionsFollowPrecedes(s: seq<Installment>, ord: seq<nat>, t: nat, u: nat)
    requires ByDue(s, ord) && t < |ord| && u < |ord|
    requires Precedes(s, ord[t], ord[u])
    ensures t < u
  {
  }

  /** Inserts index k at its place in an ordered listing. */
  function InsertByDue(s: seq<Installment>, k: nat, ord: seq<nat>): (r: seq<nat>)
    requires k < |s| && ByDue(s, ord) && k !in ord
    ensures ByDue(s, r)
    ensures |r| == |ord| + 1
    ensures forall x :: x in r <==> x == k || x in ord
    decreases |ord|
  {
    if ord == [] || Precedes(s, k, ord[0]) then
      HeadPrecedesRest(s, [k] + ord);
      [k] + ord
    else
      HeadPrecedesRest(s, ord);
      var r := InsertByDue(s, k, ord[1..]);
      assert forall x :: x in r ==> Precedes(s, ord[0], x);
      HeadPrecedesRest(s, [ord[0]] + r);
      [ord[0]] + r
  }

  /** The open rows among the first n, in visit order. */
  function OpenBelow(s: seq<Installment>, n: nat): seq<nat>
    requires n <= |s|
    decreases n, 0
  {
    if n == 0 then []
    else
      var r := OpenBelow(s, n - 1);
      if Open(s[n - 1]) then
        OpenBelowListsOpen(s, n - 1);
        InsertByDue(s, n - 1, r)
      else r
  }

  /** OpenBelow lists exactly the open rows among the first n, in order. */
  lemma OpenBelowListsOpen(s: seq<Installment>, n: nat)
    requires n <= |s|
    ensures ByDue(s, OpenBelow(s, n))
    ensures forall k: nat :: k in OpenBelow(s, n) <==> k < n && Open(s[k])
    decreases n, 1
  {
    if n > 0 {
      OpenBelowListsOpen(s, n - 1);
    }
  }

  /** Every Due or Partial row of the loan, in visit order. */
  function OpenByDue(s: seq<Installment>): (r: seq<nat>)
    ensures ByDue(s, r)
    ensures forall k: nat :: k in r <==> k < |s| && Open(s[k])
  {
    OpenBelowListsOpen(s, |s|);
    OpenBelow(s, |s|)
  }

  /** Inserting an index that comes after every listed one appends it. */
  lemma {:induction false} InsertAfterAll(s: seq<Installment>, k: nat, ord: seq<nat>)
    requires k < |s| && ByDue(s, ord) && k !in ord
    requires forall t :: 0 <= t < |ord| ==> Precedes(s, ord[t], k)
    ensures InsertByDue(s, k, ord) == ord + [k]
    decreases |ord|
  {
    if ord != [] {
      assert Precedes(s, ord[0], k);
      var rest := ord[1..];
      TailByDue(s, ord);
      assert k !in rest;
      assert forall t :: 0 <= t < |rest| ==> Precedes(s, rest[t], k) by {
        forall t | 0 <= t < |rest|
          ensures Precedes(s, rest[t], k)
        {
          assert rest[t] == ord[t + 1];
        }
      }
      InsertAfterAll(s, k, rest);
      assert ord == [ord[0]] + rest;
    }
  }

  /** The tail of an ordered listing is ordered. */
  lemma TailByDue(s: seq<Installment>, ord: seq<nat>)
    requires ByDue(s, ord) && ord != []
    ensures ByDue(s, ord[1..])
  {
    var rest := ord[1..];
    forall t, u | 0 <= t < u < |rest|
      ensures Precedes(s, rest[t], rest[u])
    {
      assert rest[t] == ord[t + 1] && rest[u] == ord[u + 1];
    }
  }

  /** The indices m, m + 1, ..., n - 1 in order. */
  function Span(m: nat, n: nat): (r: seq<nat>)
    ensures |r| == if m <= n then n - m else 0
    ensures forall t :: 0 <= t < |r| ==> r[t] == m + t
  {
    if n <= m then [] else Span(m, n - 1) + [n - 1]
  }

  /** When the first m rows are closed, the rest are open, and due dates
      never decrease along the schedule, the visit order is the schedule
      order of the open rows. */
  lemma {:induction false} OpenBelowInScheduleOrder(s: seq<Installment>, m: nat, n: nat)
    requires m <= n <= |s|
    requires forall k :: 0 <= k < |s| ==> (Open(s[k]) <==> m <= k)
    requires forall j, k :: 0 <= j < k < |s| ==> s[j].due <= s[k].due
    ensures OpenBelow(s, n) == Span(m, n)
    decreases n
  {
    if n > m {
      OpenBelowInScheduleOrder(s, m, n - 1);
      assert Open(s[n - 1]);
      OpenBelowAppends(s, m, n);
    } else if n > 0 {
      ClosedPrefix(s, n);
      assert OpenBelow(s, n) == Span(m, n);
    } else {
      assert OpenBelow(s, n) == Span(m, n);
    }
  }

  /** The induction step of OpenBelowInScheduleOrder: an open row n - 1
      that no earlier row follows is appended to the visit order. */
  lemma OpenBelowAppends(s: seq<Installment>, m: nat, n: nat)
    requires m < n <= |s| && Open(s[n - 1])
    requires OpenBelow(s, n - 1) == Span(m, n - 1)
    requires forall j, k :: 0 <= j < k < |s| ==> s[j].due <= s[k].due
    ensures OpenBelow(s, n) == Span(m, n)
  {
    var r := Span(m, n - 1);
    assert OpenBelow(s, n) == InsertByDue(s, n - 1, r);
    assert InsertByDue(s, n - 1, r) == r + [n - 1] by {
      OpenBelowListsOpen(s, n - 1);
      SpanBeforeLast(s, r, m, n);
      InsertAfterAll(s, n - 1, r);
    }
    assert Span(m, n) == r + [n - 1];
  }

  /** Every index listed in Span(m, n - 1) precedes n - 1 when due dates
      never decrease. */
  lemma SpanBeforeLast(s: seq<Installment>, r: seq<nat>, m: nat, n: nat)
    requires m < n <= |s| && r == Span(m, n - 1)
    requires forall j, k :: 0 <= j < k < |s| ==> s[j].due <= s[k].due
    ensures n - 1 !in r
    ensures forall t :: 0 <= t < |r| ==> Precedes(s, r[t], n - 1)
  {
    forall t | 0 <= t < |r|
      ensures Precedes(s, r[t], n - 1)
    {
      assert r[t] == m + t < n - 1;
    }
  }

  /** No open row below n: nothing to visit there. */
  lemma {:induction false} ClosedPrefix(s: seq<Installment>, n: nat)
    requires n <= |s|
    requires forall k :: 0 <= k < n ==> !Open(s[k])
    ensures OpenBelow(s, n) == []
  {
    if n > 0 {
      ClosedPrefix(s, n - 1);
    }
  }

  // ---------------------------------------------------------------------
  // The walk itself.
  // ---------------------------------------------------------------------

  predicate InRange(s: seq<Installment>, ord: seq<nat>) {
    forall t :: 0 <= t < |ord| ==> ord[t] < |s|
  }

  predicate Distinct(ord: seq<nat>) {
    forall t, u :: 0 <= t < u < |ord| ==> ord[t] != ord[u]
  }

  /** The walk over the rows listed in `ord`, starting with `remaining`:
      the rows afterwards and the remainder left over. A row whose
      outstanding amount the remainder covers becomes Repaid and owes
      nothing; otherwise it becomes Partial and records the remainder itself
      as its outstanding amount, and the remainder drops to zero. The walk
      stops once the remainder is not positive. */
  function Allocate(s: seq<Installment>, ord: seq<nat>, remaining: int): (w: (seq<Installment>, int))
    requires InRange(s, ord)
    ensures |w.0| == |s|
    decreases |ord|
  {
    if ord == [] || remaining <= 0 then (s, remaining)
    else
      var k := ord[0];
      var o := s[k].outstanding;
      if remaining >= o then
        Allocate(s[k := s[k].(outstanding := 0, status := Repaid)], ord[1..], remaining - o)
      else
        Allocate(s[k := s[k].(outstanding := remaining, status := Partial)], ord[1..], 0)
  }

  /** The rows after one payment: the walk over every open row in visit order. */
  function Waterfall(s: seq<Installment>, payment: int): seq<Installment> {
    Allocate(s, OpenByDue(s), payment).0
  }

  /** What a visited row can become: unchanged, fully repaid, or Partial
      with a smaller, still positive outstanding amount; nothing fixed at
      creation changes. */
  predicate Outcome(before: Installment, after: Installment) {
    after == before ||
    after == before.(outstanding := 0, status := Repaid) ||
    (after == before.(outstanding := after.outstanding, status := Partial) &&
     0 < after.outstanding < before.outstanding)
  }

  /** A row changed by the walk to Partial. */
  predicate NewlyPartial(before: Installment, after: Installment) {
    after.status == Partial && after != before
  }

  /** Total outstanding of the rows listed in `ord`. */
  function SumOver(s: seq<Installment>, ord: seq<nat>): int
    requires InRange(s, ord)
  {
    if ord == [] then 0 else s[ord[0]].outstanding + SumOver(s, ord[1..])
  }

  /** Rows not listed are left exactly as they were. */
  lemma {:induction false} AllocateFrame(s: seq<Installment>, ord: seq<nat>, remaining: int, k: nat)
    requires InRange(s, ord) && k < |s| && k !in ord
    ensures Allocate(s, ord, remaining).0[k] == s[k]
    decreases |ord|
  {
    if ord != [] && remaining > 0 {
      var o := s[ord[0]].outstanding;
      assert k !in ord[1..];
      if remaining >= o {
        AllocateFrame(s[ord[0] := s[ord[0]].(outstanding := 0, status := Repaid)], ord[1..], remaining - o, k);
      } else {
        AllocateFrame(s[ord[0] := s[ord[0]].(outstanding := remaining, status := Partial)], ord[1..], 0, k);
      }
    }
  }

  /** Every row ends in one of the outcomes the walk allows. */
  lemma {:induction false} AllocateOutcome(s: seq<Installment>, ord: seq<nat>, remaining: int)
    requires InRange(s, ord) && Distinct(ord)
    ensures forall k :: 0 <= k < |s| ==> Outcome(s[k], Allocate(s, ord, remaining).0[k])
    decreases |ord|
  {
    if ord != [] && remaining > 0 {
      var k0 := ord[0];
      var o := s[k0].outstanding;
      var x := if remaining >= o then s[k0].(outstanding := 0, status := Repaid)
               else s[k0].(outstanding := remaining, status := Partial);
      var s' := s[k0 := x];
      var rem' := if remaining >= o then remaining - o else 0;
      assert Allocate(s, ord, remaining) == Allocate(s', ord[1..], rem');
      AllocateOutcome(s', ord[1..], rem');
      assert k0 !in ord[1..];
      AllocateFrame(s', ord[1..], rem', k0);
    }
  }

  /** First in, first out: a listed row is touched only if every row listed
      before it was fully repaid. */
  lemma {:induction false} AllocateFifo(s: seq<Installment>, ord: seq<nat>, remaining: int)
    requires InRange(s, ord) && Distinct(ord)
    ensures var rows := Allocate(s, ord, remaining).0;
      forall t, u :: 0 <= t < u < |ord| && rows[ord[u]] != s[ord[u]] ==>
        rows[ord[t]].status == Repaid && rows[ord[t]].outstanding == 0
    decreases |ord|
  {
    if ord != [] && remaining > 0 {
      var k0 := ord[0];
      var o := s[k0].outstanding;
      var x := if remaining >= o then s[k0].(outstanding := 0, status := Repaid)
               else s[k0].(outstanding := remaining, status := Partial);
      var s' := s[k0 := x];
      var rem' := if remaining >= o then remaining - o else 0;
      var rows := Allocate(s', ord[1..], rem').0;
      assert Allocate(s, ord, remaining).0 == rows;
      AllocateFifo(s', ord[1..], rem');
      assert k0 !in ord[1..];
      AllocateFrame(s', ord[1..], rem', k0);
      if remaining < o {
        assert rows == s';
      }
      forall t, u | 0 <= t < u < |ord| && rows[ord[u]] != s[ord[u]]
        ensures rows[ord[t]].status == Repaid && rows[ord[t]].outstanding == 0
      {
        assert ord[u] == ord[1..][u - 1] && ord[u] != k0;
        if t > 0 {
          assert ord[t] == ord[1..][t - 1];
        }
      }
    }
  }

  /** The remainder left over: with a non-negative payment it is the payment
      less the listed rows' total outstanding when the payment covers that
      total, and zero otherwise; it is never negative. A payment exceeding the
      total repays every listed row. (One that only equals it can stop early:
      once the remainder reaches zero, later rows that owe nothing stay as
      they are.) */
  lemma {:induction false} AllocateLeftover(s: seq<Installment>, ord: seq<nat>, remaining: int)
    requires InRange(s, ord) && Distinct(ord) && remaining >= 0
    requires forall t :: 0 <= t < |ord| ==> s[ord[t]].outstanding >= 0
    ensures var w := Allocate(s, ord, remaining);
      SumOver(s, ord) >= 0 &&
      w.1 == (if remaining >= SumOver(s, ord) then remaining - SumOver(s, ord) else 0) &&
      (remaining > SumOver(s, ord) ==>
        forall t :: 0 <= t < |ord| ==> w.0[ord[t]].status == Repaid && w.0[ord[t]].outstanding == 0)
    decreases |ord|
  {
    if ord != [] {
      var k0 := ord[0];
      var o := s[k0].outstanding;
      var x := if remaining >= o then s[k0].(outstanding := 0, status := Repaid)
               else s[k0].(outstanding := remaining, status := Partial);
      var s' := s[k0 := x];
      var rem' := if remaining >= o then remaining - o else 0;
      assert forall t :: 0 <= t < |ord| - 1 ==> ord[1..][t] != k0;
      SumOverUpdate(s, ord[1..], k0, x);
      AllocateLeftover(s', ord[1..], rem');
      if remaining > 0 {
        assert Allocate(s, ord, remaining) == Allocate(s', ord[1..], rem');
        var rows := Allocate(s', ord[1..], rem').0;
        assert k0 !in ord[1..];
        AllocateFrame(s', ord[1..], rem', k0);
        if remaining > SumOver(s, ord) {
          forall t | 0 <= t < |ord|
            ensures rows[ord[t]].status == Repaid && rows[ord[t]].outstanding == 0
          {
            if t > 0 { assert ord[t] == ord[1..][t - 1]; }
          }
        }
      } else {
        SumOverNonNegative(s, ord);
      }
    }
  }

  /** A payment that covers the listed total repays every listed row that
      owes something; only rows owing nothing can be left as they were. */
  lemma {:induction false} AllocateSettlesOwed(s: seq<Installment>, ord: seq<nat>, remaining: int)
    requires InRange(s, ord) && Distinct(ord) && remaining >= SumOver(s, ord)
    requires forall t :: 0 <= t < |ord| ==> s[ord[t]].outstanding >= 0
    ensures var w := Allocate(s, ord, remaining);
      forall t :: 0 <= t < |ord| && s[ord[t]].outstanding > 0 ==>
        w.0[ord[t]].status == Repaid && w.0[ord[t]].outstanding == 0
    decreases |ord|
  {
    if ord != [] {
      var k0 := ord[0];
      var o := s[k0].outstanding;
      SumOverNonNegative(s, ord[1..]);
      if remaining > 0 {
        var x := s[k0].(outstanding := 0, status := Repaid);
        var s' := s[k0 := x];
        assert forall t :: 0 <= t < |ord| - 1 ==> ord[1..][t] != k0;
        SumOverUpdate(s, ord[1..], k0, x);
        AllocateSettlesOwed(s', ord[1..], remaining - o);
        assert Allocate(s, ord, remaining) == Allocate(s', ord[1..], remaining - o);
        var rows := Allocate(s', ord[1..], remaining - o).0;
        assert k0 !in ord[1..];
        AllocateFrame(s', ord[1..], remaining - o, k0);
        forall t | 0 <= t < |ord| && s[ord[t]].outstanding > 0
          ensures rows[ord[t]].status == Repaid && rows[ord[t]].outstanding == 0
        {
          if t > 0 {
            assert ord[t] == ord[1..][t - 1] && ord[t] != k0;
          }
        }
      } else {
        forall t | 0 <= t < |ord|
          ensures s[ord[t]].outstanding <= 0
        {
          SumOverBound(s, ord, t);
        }
      }
    }
  }

  /** Where the walk stops: once the remainder is used up by the rows listed
      before position t, the row at t and every later one are left exactly as
      they were, even one that owes nothing and is still Due. */
  lemma {:induction false} AllocateStops(s: seq<Installment>, ord: seq<nat>, remaining: int, t: nat)
    requires InRange(s, ord) && Distinct(ord) && t < |ord|
    requires forall u :: 0 <= u < |ord| ==> s[ord[u]].outstanding >= 0
    requires remaining <= SumOver(s, ord[..t])
    ensures Allocate(s, ord, remaining).0[ord[t]] == s[ord[t]]
    decreases |ord|
  {
    if remaining > 0 {
      assert ord[..0] == [];
      var k0 := ord[0];
      var o := s[k0].outstanding;
      assert ord[..t][1..] == ord[1..][..t - 1];
      assert ord[t] == ord[1..][t - 1] && ord[t] != k0;
      if remaining >= o {
        var x := s[k0].(outstanding := 0, status := Repaid);
        var s' := s[k0 := x];
        assert forall u :: 0 <= u < |ord| - 1 ==> ord[1..][u] == ord[u + 1] != k0;
        assert k0 !in ord[1..][..t - 1];
        SumOverUpdate(s, ord[1..][..t - 1], k0, x);
        AllocateStops(s', ord[1..], remaining - o, t - 1);
        assert Allocate(s, ord, remaining) == Allocate(s', ord[1..], remaining - o);
      } else {
        var s' := s[k0 := s[k0].(outstanding := remaining, status := Partial)];
        assert Allocate(s, ord, remaining) == Allocate(s', ord[1..], 0) == (s', 0);
      }
    }
  }

  /** The first listed row, reached with a positive remainder. */
  lemma AllocateReachesHead(s: seq<Installment>, ord: seq<nat>, remaining: int)
    requires InRange(s, ord) && Distinct(ord) && |ord| > 0 && remaining > 0
    ensures Allocate(s, ord, remaining).0[ord[0]]
         == if remaining >= s[ord[0]].outstanding
            then s[ord[0]].(outstanding := 0, status := Repaid)
            else s[ord[0]].(outstanding := remaining, status := Partial)
  {
    var k0 := ord[0];
    var o := s[k0].outstanding;
    assert forall u :: 0 <= u < |ord| - 1 ==> ord[1..][u] == ord[u + 1] != k0;
    if remaining >= o {
      var s' := s[k0 := s[k0].(outstanding := 0, status := Repaid)];
      assert Allocate(s, ord, remaining) == Allocate(s', ord[1..], remaining - o);
      AllocateFrame(s', ord[1..], remaining - o, k0);
    } else {
      var s' := s[k0 := s[k0].(outstanding := remaining, status := Partial)];
      assert Allocate(s, ord, remaining) == Allocate(s', ord[1..], 0);
      AllocateFrame(s', ord[1..], 0, k0);
    }
  }

  /** Repaying the first listed row shifts the prefix sums of the rest of
      the list down by what that row owed. */
  lemma {:induction false} RepayHeadShiftsSums(s: seq<Installment>, ord: seq<nat>, t: nat)
    requires InRange(s, ord) && Distinct(ord) && 0 < t < |ord|
    requires forall u :: 0 <= u < |ord| ==> s[ord[u]].outstanding >= 0
    ensures s[ord[0]].outstanding <= SumOver(s, ord[..t])
    ensures SumOver(s[ord[0] := s[ord[0]].(outstanding := 0, status := Repaid)], ord[1..][..t - 1])
         == SumOver(s, ord[..t]) - s[ord[0]].outstanding
    ensures SumOver(s[ord[0] := s[ord[0]].(outstanding := 0, status := Repaid)], ord[1..][..t])
         == SumOver(s, ord[..t + 1]) - s[ord[0]].outstanding
  {
    var k0 := ord[0];
    var pre := ord[1..][..t - 1];
    assert ord[..t][1..] == pre && ord[..t + 1][1..] == ord[1..][..t];
    assert forall u :: 0 <= u < |ord| - 1 ==> ord[1..][u] == ord[u + 1] != k0;
    assert forall u :: 0 <= u < |pre| ==> s[pre[u]].outstanding >= 0 by {
      forall u | 0 <= u < |pre|
        ensures s[pre[u]].outstanding >= 0
      {
        assert pre[u] == ord[u + 1];
      }
    }
    SumOverNonNegative(s, pre);
    var x := s[k0].(outstanding := 0, status := Repaid);
    assert k0 !in pre && k0 !in ord[1..][..t];
    SumOverUpdate(s, pre, k0, x);
    SumOverUpdate(s, ord[1..][..t], k0, x);
  }

  /** Where the walk reaches: a listed row whose predecessors owe less than
      the remainder between them is repaid when the remainder also covers
      it, and is otherwise left Partial recording what is left of the
      remainder. */
  lemma {:induction false} AllocateReaches(s: seq<Installment>, ord: seq<nat>, remaining: int, t: nat)
    requires InRange(s, ord) && Distinct(ord) && t < |ord|
    requires forall u :: 0 <= u < |ord| ==> s[ord[u]].outstanding >= 0
    requires remaining > SumOver(s, ord[..t])
    ensures Allocate(s, ord, remaining).0[ord[t]]
         == if remaining >= SumOver(s, ord[..t + 1])
            then s[ord[t]].(outstanding := 0, status := Repaid)
            else s[ord[t]].(outstanding := remaining - SumOver(s, ord[..t]), status := Partial)
    decreases |ord|
  {
    if t == 0 {
      assert ord[..0] == [] && ord[..1] == [ord[0]];
      assert SumOver(s, ord[..1]) == s[ord[0]].outstanding;
      AllocateReachesHead(s, ord, remaining);
    } else {
      var k0 := ord[0];
      var o := s[k0].outstanding;
      var s' := s[k0 := s[k0].(outstanding := 0, status := Repaid)];
      RepayHeadShiftsSums(s, ord, t);
      assert forall u :: 0 <= u < |ord| - 1 ==> ord[1..][u] == ord[u + 1] != k0;
      assert ord[1..][..t - 1 + 1] == ord[1..][..t];
      AllocateReaches(s', ord[1..], remaining - o, t - 1);
      assert Allocate(s, ord, remaining) == Allocate(s', ord[1..], remaining - o);
    }
  }

  /** Each listed row owes at most the listed total. */
  lemma {:induction false} SumOverBound(s: seq<Installment>, ord: seq<nat>, t: nat)
    requires InRange(s, ord) && t < |ord|
    requires forall u :: 0 <= u < |ord| ==> s[ord[u]].outstanding >= 0
    ensures s[ord[t]].outstanding <= SumOver(s, ord)
    decreases |ord|
  {
    SumOverNonNegative(s, ord[1..]);
    if t > 0 {
      assert ord[t] == ord[1..][t - 1];
      SumOverBound(s, ord[1..], t - 1);
    }
  }

  /** The row the walk leaves Partial records the remainder that reached
      it, the payment less what the rows listed before it owed: the amount
      applied to it, not what it still owes. */
  lemma {:induction false} AllocatePartialRecordsRemainder(s: seq<Installment>, ord: seq<nat>, remaining: int, u: nat)
    requires InRange(s, ord) && Distinct(ord) && u < |ord|
    requires NewlyPartial(s[ord[u]], Allocate(s, ord, remaining).0[ord[u]])
    ensures Allocate(s, ord, remaining).0[ord[u]].outstanding == remaining - SumOver(s, ord[..u])
    decreases |ord|
  {
    var k0 := ord[0];
    var o := s[k0].outstanding;
    var x := if remaining >= o then s[k0].(outstanding := 0, status := Repaid)
             else s[k0].(outstanding := remaining, status := Partial);
    var s' := s[k0 := x];
    var rem' := if remaining >= o then remaining - o else 0;
    assert k0 !in ord[1..];
    AllocateFrame(s', ord[1..], rem', k0);
    if u == 0 {
      assert remaining > 0 && Allocate(s, ord, remaining).0 == Allocate(s', ord[1..], rem').0;
    } else {
      assert ord[u] == ord[1..][u - 1] && ord[u] != k0;
      if remaining > 0 && remaining >= o {
        assert Allocate(s, ord, remaining).0 == Allocate(s', ord[1..], rem').0;
        AllocatePartialRecordsRemainder(s', ord[1..], rem', u - 1);
        assert ord[..u][1..] == ord[1..][..u - 1];
        assert k0 !in ord[1..][..u - 1];
        SumOverUpdate(s, ord[1..][..u - 1], k0, x);
      }
    }
  }

  /** Changing a row that is not listed does not change the listed total. */
  lemma {:induction false} SumOverUpdate(s: seq<Installment>, ord: seq<nat>, k: nat, x: Installment)
    requires InRange(s, ord) && k < |s| && k !in ord
    ensures SumOver(s[k := x], ord) == SumOver(s, ord)
    decreases |ord|
  {
    if ord != [] {
      SumOverUpdate(s, ord[1..], k, x);
    }
  }

  lemma {:induction false} SumOverNonNegative(s: seq<Installment>, ord: seq<nat>)
    requires InRange(s, ord)
    requires forall t :: 0 <= t < |ord| ==> s[ord[t]].outstanding >= 0
    ensures SumOver(s, ord) >= 0
    decreases |ord|
  {
    if ord != [] {
      SumOverNonNegative(s, ord[1..]);
    }
  }

  /** Unless the walk leaves a row newly Partial, the rows' total outstanding
      drops by exactly the part of the payment that was used. */
  lemma {:induction false} AllocateConserves(s: seq<Installment>, ord: seq<nat>, remaining: int)
    requires InRange(s, ord) && Distinct(ord)
    ensures var w := Allocate(s, ord, remaining);
      (forall k :: 0 <= k < |s| ==> !NewlyPartial(s[k], w.0[k])) ==>
        SumOutstanding(s) - SumOutstanding(w.0) == remaining - w.1
    decreases |ord|
  {
    if ord != [] && remaining > 0 {
      var k0 := ord[0];
      var o := s[k0].outstanding;
      var x := if remaining >= o then s[k0].(outstanding := 0, status := Repaid)
               else s[k0].(outstanding := remaining, status := Partial);
      var s' := s[k0 := x];
      var rem' := if remaining >= o then remaining - o else 0;
      var w := Allocate(s', ord[1..], rem');
      assert Allocate(s, ord, remaining) == w;
      assert k0 !in ord[1..];
      AllocateFrame(s', ord[1..], rem', k0);
      AllocateConserves(s', ord[1..], rem');
      SumOutstandingUpdate(s, k0, x);
      if remaining >= o {
        if forall k :: 0 <= k < |s| ==> !NewlyPartial(s[k], w.0[k]) {
          forall k | 0 <= k < |s|
            ensures !NewlyPartial(s'[k], w.0[k])
          {
            if k != k0 { assert s'[k] == s[k]; }
          }
        }
      } else {
        assert NewlyPartial(s[k0], w.0[k0]);
      }
    }
  }

  // ---------------------------------------------------------------------
  // The walk over the query's order, as the allocator runs it.
  // ---------------------------------------------------------------------

  /** Each row of a payment's waterfall is unchanged, fully repaid, or newly
      Partial with a smaller positive outstanding; rows that were not open
      are untouched; well-formed rows stay well-formed, keep their schedule
      terms, never owe more than before and never move backwards in status. */
  lemma WaterfallRows(s: seq<Installment>, payment: int)
    requires AllWellFormed(s)
    ensures var rows := Waterfall(s, payment);
      |rows| == |s| && AllWellFormed(rows) &&
      forall k :: 0 <= k < |s| ==>
        Outcome(s[k], rows[k]) && SameTerms(s[k], rows[k]) &&
        rows[k].outstanding <= s[k].outstanding &&
        Advances(s[k].status, rows[k].status) &&
        (!Open(s[k]) ==> rows[k] == s[k])
  {
    var ord := OpenByDue(s);
    var rows := Waterfall(s, payment);
    AllocateOutcome(s, ord, payment);
    forall k | 0 <= k < |s| && !Open(s[k])
      ensures rows[k] == s[k]
    {
      AllocateFrame(s, ord, payment, k);
    }
  }

  /** Oldest first: an open row is touched only if every open row due
      before it is fully repaid. */
  lemma WaterfallFifo(s: seq<Installment>, payment: int, i: nat, j: nat)
    requires i < |s| && j < |s| && Open(s[i]) && Open(s[j]) && Precedes(s, i, j)
    requires Waterfall(s, payment)[j] != s[j]
    ensures Waterfall(s, payment)[i].status == Repaid && Waterfall(s, payment)[i].outstanding == 0
  {
    var ord := OpenByDue(s);
    assert i in ord && j in ord;
    var t :| 0 <= t < |ord| && ord[t] == i;
    var u :| 0 <= u < |ord| && ord[u] == j;
    PositionsFollowPrecedes(s, ord, t, u);
    AllocateFifo(s, ord, payment);
  }

  /** At most one row becomes Partial per payment, and it is the last one
      touched: every open row due after it keeps its state. */
  lemma WaterfallOnePartial(s: seq<Installment>, payment: int, i: nat, j: nat)
    requires i < |s| && j < |s| && i != j
    requires NewlyPartial(s[i], Waterfall(s, payment)[i])
    ensures !NewlyPartial(s[j], Waterfall(s, payment)[j])
    ensures Open(s[j]) && Precedes(s, i, j) ==> Waterfall(s, payment)[j] == s[j]
  {
    var ord := OpenByDue(s);
    var rows := Waterfall(s, payment);
    forall k | 0 <= k < |s| && !Open(s[k])
      ensures rows[k] == s[k]
    {
      AllocateFrame(s, ord, payment, k);
    }
    if rows[j] != s[j] {
      if Precedes(s, i, j) {
        WaterfallFifo(s, payment, i, j);
      } else {
        WaterfallFifo(s, payment, j, i);
      }
    }
  }

  /** A payment exceeding the total outstanding of the open rows repays
      every row, and the surplus is not recorded anywhere; a payment below
      that total is used up entirely. */
  lemma WaterfallSurplus(s: seq<Installment>, payment: int)
    requires AllWellFormed(s) && payment >= 0
    ensures var ord := OpenByDue(s); var w := Allocate(s, ord, payment);
      w.1 == (if payment >= SumOver(s, ord) then payment - SumOver(s, ord) else 0) &&
      (payment > SumOver(s, ord) ==> forall k :: 0 <= k < |s| ==> w.0[k].status == Repaid)
  {
    var ord := OpenByDue(s);
    AllocateLeftover(s, ord, payment);
    var rows := Allocate(s, ord, payment).0;
    if payment > SumOver(s, ord) {
      forall k | 0 <= k < |s|
        ensures rows[k].status == Repaid
      {
        if Open(s[k]) {
          var t :| 0 <= t < |ord| && ord[t] == k;
        } else {
          AllocateFrame(s, ord, payment, k);
        }
      }
    }
  }

  /** A payment of at least the open rows' total repays every row that
      owes something. */
  lemma WaterfallSettlesOwed(s: seq<Installment>, payment: int)
    requires AllWellFormed(s) && payment >= SumOver(s, OpenByDue(s))
    ensures forall k :: 0 <= k < |s| && s[k].outstanding > 0 ==>
      Waterfall(s, payment)[k].status == Repaid && Waterfall(s, payment)[k].outstanding == 0
  {
    var ord := OpenByDue(s);
    AllocateSettlesOwed(s, ord, payment);
    forall k | 0 <= k < |s| && s[k].outstanding > 0
      ensures Waterfall(s, payment)[k].status == Repaid && Waterfall(s, payment)[k].outstanding == 0
    {
      assert Open(s[k]);
      var t :| 0 <= t < |ord| && ord[t] == k;
    }
  }

  /** The early exit: an open row whose predecessors in visit order owe at
      least the payment between them is left exactly as it was. */
  lemma WaterfallStops(s: seq<Installment>, payment: int)
    requires AllWellFormed(s)
    ensures var ord := OpenByDue(s);
      forall t :: 0 <= t < |ord| && payment <= SumOver(s, ord[..t]) ==>
        Waterfall(s, payment)[ord[t]] == s[ord[t]]
  {
    var ord := OpenByDue(s);
    forall t | 0 <= t < |ord| && payment <= SumOver(s, ord[..t])
      ensures Waterfall(s, payment)[ord[t]] == s[ord[t]]
    {
      AllocateStops(s, ord, payment, t);
    }
  }

  /** Every open row the payment reaches in visit order ends repaid, or
      Partial recording what is left of the payment once its predecessors
      are paid. */
  lemma WaterfallReaches(s: seq<Installment>, payment: int)
    requires AllWellFormed(s)
    ensures var ord := OpenByDue(s);
      forall t :: 0 <= t < |ord| && payment > SumOver(s, ord[..t]) ==>
        Waterfall(s, payment)[ord[t]]
          == if payment >= SumOver(s, ord[..t + 1])
             then s[ord[t]].(outstanding := 0, status := Repaid)
             else s[ord[t]].(outstanding := payment - SumOver(s, ord[..t]), status := Partial)
  {
    var ord := OpenByDue(s);
    forall t | 0 <= t < |ord| && payment > SumOver(s, ord[..t])
      ensures Waterfall(s, payment)[ord[t]]
          == if payment >= SumOver(s, ord[..t + 1])
             then s[ord[t]].(outstanding := 0, status := Repaid)
             else s[ord[t]].(outstanding := payment - SumOver(s, ord[..t]), status := Partial)
    {
      AllocateReaches(s, ord, payment, t);
    }
  }

  /** A payment that is not positive changes nothing. */
  lemma NonPositivePayment(s: seq<Installment>, payment: int)
    requires payment <= 0
    ensures Waterfall(s, payment) == s
  {
  }
}
