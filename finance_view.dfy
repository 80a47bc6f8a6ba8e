/**
 * The treasury screen (components/Finance.tsx): the deposit and withdrawal
 * forms' validation, the per-event "fully paid" badge, the payroll button's
 * enablement and the newest-first event list.
 */
module FinanceView {
  import opened ClubTypes
  import opened IdSets
  import Schedule
  import Ledger
  import Payroll
  import Ordering

  /** What a valid form hands to `onAddFunds` / `onRemoveFunds`. */
  datatype FundsRequest = FundsRequest(amount: int, description: string)

  /**
   * Both forms' `handleSubmit`: `amount` is the parsed amount, None when it
   * does not parse as a number. A non-positive amount or an empty
   * description is refused and nothing is called.
   */
  function SubmitFunds(amount: Option<int>, description: string): (r: Option<FundsRequest>)
    ensures r.None? <==> amount.None? || amount.value <= 0 || description == ""
    ensures r.Some? ==>
      (r.value.amount == amount.value && r.value.amount > 0 &&
       r.value.description == description && r.value.description != "")
  {
    if amount.None? || amount.value <= 0 || description == "" then None
    else Some(FundsRequest(amount.value, description))
  }

  /** A deposit that passes the form strictly raises the balance and keeps the ledger consistent. */
  lemma AcceptedDepositRaisesBalance(f: Financials, amount: Option<int>, description: string, stamp: Stamp)
    requires Ledger.Consistent(f)
    requires SubmitFunds(amount, description).Some?
    ensures var req := SubmitFunds(amount, description).value;
      var g := Ledger.AddFunds(f, stamp, req.amount, req.description);
      g.balance > f.balance && Ledger.Consistent(g) && g.transactions[0].amount > 0
  {
  }

  /**
   * A withdrawal that passes the form is either refused by the treasury or
   * strictly lowers the balance without taking it below zero.
   */
  lemma AcceptedWithdrawalNeverOverdraws(f: Financials, amount: Option<int>, description: string, stamp: Stamp)
    requires SubmitFunds(amount, description).Some?
    ensures var req := SubmitFunds(amount, description).value;
      match Ledger.RemoveFunds(f, stamp, req.amount, req.description)
      case Success(g) => 0 <= g.balance < f.balance && g.transactions[0].amount < 0
      case Failure(_) => f.balance < req.amount
  {
  }

  /** The badge as written: a positive check-in count equal to the paid count. */
  predicate IsFullyPaidAsWritten(e: JamEvent)
  {
    var attendeesCount := |e.checkedInMembers|;
    attendeesCount > 0 && attendeesCount == |e.paidMembers|
  }

  /** The badge as intended: somebody checked in, and every checked-in member is paid. */
  predicate IsFullyPaid(e: JamEvent)
  {
    e.checkedInMembers != [] && forall id :: id in e.checkedInMembers ==> id in e.paidMembers
  }

  /**
   * An event the badge calls fully paid has nobody left on its payroll:
   * the payroll modal lists no unpaid member, whatever the roster.
   */
  lemma FullyPaidLeavesNobodyOwed(e: JamEvent, ms: seq<Member>)
    requires IsFullyPaid(e)
    ensures Payroll.UnpaidMembers(Payroll.AttendedMemberDetails(e.checkedInMembers, e.paidMembers, ms)) == []
  {
    var rows := Payroll.AttendedMemberDetails(e.checkedInMembers, e.paidMembers, ms);
    assert forall r :: r in rows ==> r.isPaid;
    NoUnpaidRows(rows);
  }

  /** Once the corrected badge calls an event fully paid, its dialog's Pay All button is disabled. */
  lemma FullyPaidDisablesPayAll(e: JamEvent, ms: seq<Member>, balance: int)
    requires IsFullyPaid(e)
    ensures !Payroll.PayAllEnabled(balance, Payroll.UnpaidMembers(
      Payroll.AttendedMemberDetails(e.checkedInMembers, e.paidMembers, ms)))
  {
    FullyPaidLeavesNobodyOwed(e, ms);
  }

  /** Rows that are all paid leave nobody unpaid. */
  lemma {:induction false} NoUnpaidRows(rows: seq<Payroll.PayrollRow>)
    requires forall r :: r in rows ==> r.isPaid
    ensures Payroll.UnpaidMembers(rows) == []
  {
    if rows != [] {
      assert rows[0] in rows;
      NoUnpaidRows(rows[1..]);
    }
  }

  /**
   * The counting badge is wrong once the check-in list is edited after
   * payment: members "1" and "3" checked in and were paid; the checklist is
   * then saved as "1" and "2". The counts still agree, so the event shows as
   * fully paid, yet "2" is checked in and unpaid.
   */
  lemma FullyPaidMiscount()
    ensures var before := [JamEvent(1, "Jam", 0, [], ["1", "3"], [])];
      var paid := Schedule.MarkPaid(Schedule.MarkPaid(before, 1, "1"), 1, "3");
      var after := Schedule.UpdateAttendance(paid, 1, ["1", "2"]);
      IsFullyPaidAsWritten(after[0]) && !IsFullyPaid(after[0]) &&
      "2" in after[0].checkedInMembers && "2" !in after[0].paidMembers
  {
    var before := [JamEvent(1, "Jam", 0, [], ["1", "3"], [])];
    var once := Schedule.MarkPaid(before, 1, "1");
    SetAddFresh([], "1");
    assert once[0].paidMembers == ["1"];
    var twice := Schedule.MarkPaid(once, 1, "3");
    SetAddFresh(["1"], "3");
    assert twice[0].paidMembers == ["1", "3"];
    var after := Schedule.UpdateAttendance(twice, 1, ["1", "2"]);
    assert after[0].checkedInMembers == ["1", "2"] && after[0].paidMembers == ["1", "3"];
    assert "2" !in ["1", "3"];
    assert !IsFullyPaid(after[0]);
  }

  /** Without repeats or stray payments, counting agrees with the intended badge. */
  lemma {:induction false} CountingAgreesWhenPaidAreCheckedIn(e: JamEvent)
    requires NoDup(e.checkedInMembers) && NoDup(e.paidMembers)
    requires forall id :: id in e.paidMembers ==> id in e.checkedInMembers
    ensures IsFullyPaidAsWritten(e) <==> IsFullyPaid(e)
  {
    var c := set id | id in e.checkedInMembers;
    var p := set id | id in e.paidMembers;
    DistinctCount(e.checkedInMembers);
    DistinctCount(e.paidMembers);
    assert p <= c;
    if IsFullyPaidAsWritten(e) {
      SubsetOfSameSize(p, c);
      forall id | id in e.checkedInMembers ensures id in e.paidMembers {
        assert id in c;
      }
    }
    if IsFullyPaid(e) {
      assert c <= p;
      assert c == p;
      assert |e.checkedInMembers| == |e.paidMembers|;
    }
  }

  /** A list without repeats holds as many ids as its set. */
  lemma {:induction false} DistinctCount(s: seq<string>)
    requires NoDup(s)
    ensures |set id | id in s| == |s|
  {
    if s != [] {
      var init := s[..|s| - 1];
      var last := s[|s| - 1];
      assert NoDup(init);
      DistinctCount(init);
      assert last !in init by {
        forall k | 0 <= k < |init| ensures init[k] != last {
          assert s[k] == init[k];
        }
      }
      assert s == init + [last];
      assert (set id | id in s) == (set id | id in init) + {last};
    }
  }

  /** A subset as large as its superset is the superset. */
  lemma SubsetOfSameSize(p: set<string>, c: set<string>)
    requires p <= c && |p| == |c|
    ensures p == c
  {
    if p != c {
      var x :| x in c && x !in p;
      SubsetSize(p, c - {x});
    }
  }

  lemma {:induction false} SubsetSize(p: set<string>, q: set<string>)
    requires p <= q
    ensures |p| <= |q|
    decreases p
  {
    if p != {} {
      var y :| y in p;
      SubsetSize(p - {y}, q - {y});
    }
  }

  /** The payroll button is disabled while nobody is checked in. */
  predicate PayrollButtonEnabled(e: JamEvent)
  {
    |e.checkedInMembers| != 0
  }

  /** A disabled payroll button hides an empty payroll: with no check-ins no row can be listed. */
  lemma DisabledPayrollIsEmpty(e: JamEvent, ms: seq<Member>)
    requires !PayrollButtonEnabled(e)
    ensures Payroll.AttendedMemberDetails(e.checkedInMembers, e.paidMembers, ms) == []
  {
  }

  /** `sortedEvents`: the events, newest first. */
  function PayrollEvents(es: seq<JamEvent>): (r: seq<JamEvent>)
    ensures Ordering.SortedByDate(r, false)
    ensures multiset(r) == multiset(es)
    ensures Ordering.DatesDistinct(es) ==> r == Ordering.Reverse(Ordering.SortByDate(es, true))
  {
    if Ordering.DatesDistinct(es) then
      Ordering.NewestFirstIsOldestFirstReversed(es);
      Ordering.SortByDate(es, false)
    else
      Ordering.SortByDate(es, false)
  }
}
