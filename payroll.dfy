/**
 * The payroll modal (components/PayrollModal.tsx): which checked-in members
 * are still owed, what paying them all costs, when the buttons are enabled,
 * and the Pay All loop, which issues one App-level payment per unpaid member.
 */
module Payroll {
  import opened ClubTypes
  import opened Roster
  import Schedule
  import Ledger
  import Payments
  import Club

  /** One line of the modal: a resolved member and whether it is already paid. */
  datatype PayrollRow = PayrollRow(member: Member, isPaid: bool)

  /**
   * `attendedMemberDetails`: each checked-in id resolved against the roster;
   * ids that resolve to no member (or to an empty id) are dropped.
   */
  function AttendedMemberDetails(checkedIn: seq<string>, paid: seq<string>, ms: seq<Member>): (rows: seq<PayrollRow>)
    ensures |rows| <= |checkedIn|
    ensures forall r :: r in rows ==>
      r.member in ms && r.member.id in checkedIn && r.member.id != "" && (r.isPaid <==> r.member.id in paid)
    ensures forall id :: id in checkedIn && id != "" && FindById(ms, id).Some? ==>
      exists r :: r in rows && r.member == FindById(ms, id).value
  {
    if checkedIn == [] then []
    else
      var rest := AttendedMemberDetails(checkedIn[1..], paid, ms);
      assert forall id :: id in checkedIn <==> id == checkedIn[0] || id in checkedIn[1..];
      match FindById(ms, checkedIn[0])
      case Some(m) =>
        if m.id != "" then [PayrollRow(m, checkedIn[0] in paid)] + rest else rest
      case None => rest
  }

  /** `unpaidMembers`: the members of the rows not yet paid, in row order. */
  function UnpaidMembers(rows: seq<PayrollRow>): (ms: seq<Member>)
    ensures |ms| <= |rows|
    ensures forall m :: m in ms <==> PayrollRow(m, false) in rows
  {
    if rows == [] then []
    else
      var rest := UnpaidMembers(rows[1..]);
      assert forall r :: r in rows <==> r == rows[0] || r in rows[1..];
      if rows[0].isPaid then rest else [rows[0].member] + rest
  }

  /** The row a single checked-in id contributes: none when it resolves to nobody. */
  function RowOf(id: string, paid: seq<string>, ms: seq<Member>): seq<PayrollRow>
  {
    if id != "" && FindById(ms, id).Some? then [PayrollRow(FindById(ms, id).value, id in paid)] else []
  }

  /** One unfolding of the row list. */
  lemma DetailsCons(checkedIn: seq<string>, paid: seq<string>, ms: seq<Member>)
    requires checkedIn != []
    ensures AttendedMemberDetails(checkedIn, paid, ms) ==
      RowOf(checkedIn[0], paid, ms) + AttendedMemberDetails(checkedIn[1..], paid, ms)
  {
  }

  /** The rows of a joined id list are the rows of each part, in order. */
  lemma {:induction false} DetailsSplit(a: seq<string>, b: seq<string>, paid: seq<string>, ms: seq<Member>)
    ensures AttendedMemberDetails(a + b, paid, ms) ==
      AttendedMemberDetails(a, paid, ms) + AttendedMemberDetails(b, paid, ms)
  {
    if a == [] {
      assert a + b == b;
    } else {
      var head := RowOf(a[0], paid, ms);
      calc {
        AttendedMemberDetails(a + b, paid, ms);
        { DetailsCons(a + b, paid, ms); assert (a + b)[0] == a[0]; }
        head + AttendedMemberDetails((a + b)[1..], paid, ms);
        { assert (a + b)[1..] == a[1..] + b; }
        head + AttendedMemberDetails(a[1..] + b, paid, ms);
        { DetailsSplit(a[1..], b, paid, ms); }
        head + (AttendedMemberDetails(a[1..], paid, ms) + AttendedMemberDetails(b, paid, ms));
        (head + AttendedMemberDetails(a[1..], paid, ms)) + AttendedMemberDetails(b, paid, ms);
        { DetailsCons(a, paid, ms); }
        AttendedMemberDetails(a, paid, ms) + AttendedMemberDetails(b, paid, ms);
      }
    }
  }

  /**
   * Checking one more member in appends at most one row, at the end: the
   * member's own, flagged paid iff its id is in the paid set.
   */
  lemma DetailsAppend(checkedIn: seq<string>, id: string, paid: seq<string>, ms: seq<Member>)
    ensures AttendedMemberDetails(checkedIn + [id], paid, ms) ==
      AttendedMemberDetails(checkedIn, paid, ms) +
      (if id != "" && FindById(ms, id).Some? then [PayrollRow(FindById(ms, id).value, id in paid)] else [])
  {
    DetailsSplit(checkedIn, [id], paid, ms);
    DetailsSingle(id, paid, ms);
  }

  /** A single checked-in id yields exactly its own row. */
  lemma DetailsSingle(id: string, paid: seq<string>, ms: seq<Member>)
    ensures AttendedMemberDetails([id], paid, ms) == RowOf(id, paid, ms)
  {
    DetailsCons([id], paid, ms);
    assert [id][1..] == [];
  }

  /** One unfolding of the unpaid list. */
  lemma UnpaidCons(rows: seq<PayrollRow>)
    requires rows != []
    ensures UnpaidMembers(rows) ==
      (if rows[0].isPaid then [] else [rows[0].member]) + UnpaidMembers(rows[1..])
  {
  }

  /** The unpaid members of joined row lists are those of each part, in order. */
  lemma {:induction false} UnpaidSplit(a: seq<PayrollRow>, b: seq<PayrollRow>)
    ensures UnpaidMembers(a + b) == UnpaidMembers(a) + UnpaidMembers(b)
  {
    if a == [] {
      assert a + b == b;
    } else {
      var head := if a[0].isPaid then [] else [a[0].member];
      calc {
        UnpaidMembers(a + b);
        { UnpaidCons(a + b); assert (a + b)[0] == a[0]; }
        head + UnpaidMembers((a + b)[1..]);
        { assert (a + b)[1..] == a[1..] + b; }
        head + UnpaidMembers(a[1..] + b);
        { UnpaidSplit(a[1..], b); }
        head + (UnpaidMembers(a[1..]) + UnpaidMembers(b));
        (head + UnpaidMembers(a[1..])) + UnpaidMembers(b);
        { UnpaidCons(a); }
        UnpaidMembers(a) + UnpaidMembers(b);
      }
    }
  }

  /** One more row adds its member at the end exactly when the row is unpaid. */
  lemma UnpaidAppend(rows: seq<PayrollRow>, row: PayrollRow)
    ensures UnpaidMembers(rows + [row]) == UnpaidMembers(rows) + (if row.isPaid then [] else [row.member])
  {
    UnpaidSplit(rows, [row]);
    UnpaidCons([row]);
    assert [row][1..] == [];
  }

  /** `totalPayout`: the sum of the rates of `ms`, a missing rate counting 0. */
  function TotalPayout(ms: seq<Member>): int
  {
    if ms == [] then 0 else TotalPayout(ms[..|ms| - 1]) + ms[|ms| - 1].Payout()
  }

  /** `canPayAll`. */
  predicate CanPayAll(balance: int, ms: seq<Member>)
  {
    balance >= TotalPayout(ms)
  }

  /** The Pay All button: somebody is unpaid and the balance covers them all. */
  predicate PayAllEnabled(balance: int, unpaid: seq<Member>)
  {
    |unpaid| != 0 && CanPayAll(balance, unpaid)
  }

  /** A row's Pay button: disabled when the member's rate exceeds the balance. */
  predicate PayEnabled(balance: int, m: Member)
  {
    !(m.Payout() > balance)
  }

  /** A Pay button is enabled exactly when the payment it issues is accepted. */
  lemma PayEnabledIffAccepted(b: Payments.Books, event: JamEvent, m: Member, stamp: Stamp)
    ensures PayEnabled(b.financials.balance, m) <==> Payments.ProcessPayment(b, event, m, stamp).Success?
  {
  }

  /** One iteration of the Pay All loop: members with an empty id are skipped. */
  function PayAllStep(b: Payments.Books, event: JamEvent, m: Member, stamp: Stamp): Payments.Books
  {
    if m.id != "" then Payments.PayStep(b, event, m, stamp) else b
  }

  /**
   * The books after the loop has run over all of `ms`; the `i`-th payment
   * carries `stampOf(i)`.
   */
  function PayEach(b: Payments.Books, event: JamEvent, ms: seq<Member>, stampOf: int -> Stamp): Payments.Books
  {
    if ms == [] then b
    else PayAllStep(PayEach(b, event, ms[..|ms| - 1], stampOf), event, ms[|ms| - 1], stampOf(|ms| - 1))
  }

  /**
   * `handlePayAll`: refused as a whole when the balance is below the total;
   * otherwise one payment per unpaid member, in order.
   */
  method PayAll(club: Club.ClubState, event: JamEvent, unpaid: seq<Member>, stampOf: int -> Stamp)
    returns (refused: bool)
    modifies club`events, club`financials
    ensures refused <==> !CanPayAll(old(club.financials.balance), unpaid)
    ensures refused ==> club.events == old(club.events) && club.financials == old(club.financials)
    ensures !refused ==>
      (Payments.Books(club.events, club.financials)
       == PayEach(Payments.Books(old(club.events), old(club.financials)), event, unpaid, stampOf))
    ensures old(club.Valid()) ==> club.Valid()
  {
    if !CanPayAll(club.financials.balance, unpaid) {
      return true;
    }
    refused := false;
    var i := 0;
    while i < |unpaid|
      invariant 0 <= i <= |unpaid|
      invariant Payments.Books(club.events, club.financials)
        == PayEach(Payments.Books(old(club.events), old(club.financials)), event, unpaid[..i], stampOf)
      invariant old(club.Valid()) ==> club.Valid()
    {
      assert unpaid[..i + 1][..i] == unpaid[..i];
      if unpaid[i].id != "" {
        var _ := club.ProcessPayment(event, unpaid[i], stampOf(i));
      }
      i := i + 1;
    }
    assert unpaid[..i] == unpaid;
  }

  /** The transaction paying `m` for `event`. */
  function PayrollTransaction(event: JamEvent, m: Member, stamp: Stamp): Transaction
  {
    Transaction(stamp.id, stamp.at, Payments.PaymentDescription(m.fullName, event.title), -m.Payout())
  }

  /** The transactions a fully accepted batch prepends, newest (last member) first. */
  function PayrollBatch(event: JamEvent, ms: seq<Member>, stampOf: int -> Stamp): (txs: seq<Transaction>)
    ensures |txs| == |ms|
    ensures forall i :: 0 <= i < |ms| ==> txs[|ms| - 1 - i] == PayrollTransaction(event, ms[i], stampOf(i))
  {
    if ms == [] then []
    else
      var init := ms[..|ms| - 1];
      var rest := PayrollBatch(event, init, stampOf);
      assert forall i :: 0 <= i < |init| ==> init[i] == ms[i];
      [PayrollTransaction(event, ms[|ms| - 1], stampOf(|ms| - 1))] + rest
  }

  /**
   * When the balance covers the total and no rate is negative, the loop
   * refuses nobody: the balance drops by exactly the total, so it stays
   * non-negative, and one transaction per member is prepended.
   */
  lemma {:induction false} PayEachBalance(b: Payments.Books, event: JamEvent, ms: seq<Member>, stampOf: int -> Stamp)
    requires forall i :: 0 <= i < |ms| ==> ms[i].id != "" && ms[i].Payout() >= 0
    requires b.financials.balance >= TotalPayout(ms)
    ensures var r := PayEach(b, event, ms, stampOf);
      r.financials.balance == b.financials.balance - TotalPayout(ms) &&
      r.financials.balance >= 0 &&
      r.financials.transactions == PayrollBatch(event, ms, stampOf) + b.financials.transactions
    decreases |ms|
  {
    TotalPayoutNonNegative(ms);
    if ms != [] {
      BatchPrefix(b, ms);
      PayEachBalance(b, event, ms[..|ms| - 1], stampOf);
      PayEachBalanceLast(b, event, ms, stampOf);
    }
  }

  /** The batch without its last member meets the batch's own conditions. */
  lemma BatchPrefix(b: Payments.Books, ms: seq<Member>)
    requires ms != []
    requires forall i :: 0 <= i < |ms| ==> ms[i].id != "" && ms[i].Payout() >= 0
    requires b.financials.balance >= TotalPayout(ms)
    ensures var init := ms[..|ms| - 1];
      (forall i :: 0 <= i < |init| ==> init[i] == ms[i]) &&
      (forall i :: 0 <= i < |init| ==> init[i].id != "" && init[i].Payout() >= 0) &&
      b.financials.balance >= TotalPayout(init) &&
      TotalPayout(ms) == TotalPayout(init) + ms[|ms| - 1].Payout()
  {
    var init := ms[..|ms| - 1];
    assert forall i :: 0 <= i < |init| ==> init[i] == ms[i];
  }

  /** The last payment of a covered batch, given what the payments before it did to the ledger. */
  lemma PayEachBalanceLast(b: Payments.Books, event: JamEvent, ms: seq<Member>, stampOf: int -> Stamp)
    requires ms != [] && ms[|ms| - 1].id != "" && ms[|ms| - 1].Payout() >= 0
    requires TotalPayout(ms) == TotalPayout(ms[..|ms| - 1]) + ms[|ms| - 1].Payout()
    requires b.financials.balance >= TotalPayout(ms)
    requires var p := PayEach(b, event, ms[..|ms| - 1], stampOf);
      p.financials.balance == b.financials.balance - TotalPayout(ms[..|ms| - 1]) &&
      p.financials.transactions == PayrollBatch(event, ms[..|ms| - 1], stampOf) + b.financials.transactions
    ensures var r := PayEach(b, event, ms, stampOf);
      r.financials.balance == b.financials.balance - TotalPayout(ms) &&
      r.financials.balance >= 0 &&
      r.financials.transactions == PayrollBatch(event, ms, stampOf) + b.financials.transactions
  {
    var n := |ms| - 1;
    PayStepAccepted(PayEach(b, event, ms[..n], stampOf), event, ms[n], stampOf(n));
  }

  /** A payment the balance covers is accepted: the balance drops by the rate and its transaction is prepended. */
  lemma PayStepAccepted(p: Payments.Books, event: JamEvent, m: Member, stamp: Stamp)
    requires m.id != "" && p.financials.balance >= m.Payout()
    ensures PayAllStep(p, event, m, stamp).events == Schedule.MarkPaid(p.events, event.id, m.id)
    ensures PayAllStep(p, event, m, stamp).financials
         == Financials(p.financials.balance - m.Payout(), [PayrollTransaction(event, m, stamp)] + p.financials.transactions)
  {
    assert Payments.ProcessPayment(p, event, m, stamp).Success?;
  }

  /**
   * Under the same conditions every member of the batch ends up in the
   * event's paid set, and no other event changes.
   */
  lemma {:induction false} PayEachMarksPaid(b: Payments.Books, event: JamEvent, ms: seq<Member>, stampOf: int -> Stamp)
    requires forall i :: 0 <= i < |ms| ==> ms[i].id != "" && ms[i].Payout() >= 0
    requires b.financials.balance >= TotalPayout(ms)
    ensures var r := PayEach(b, event, ms, stampOf);
      Schedule.OnlyEventChanged(b.events, r.events, event.id) &&
      forall j :: 0 <= j < |b.events| && b.events[j].id == event.id ==>
        forall i :: 0 <= i < |ms| ==> ms[i].id in r.events[j].paidMembers
    decreases |ms|
  {
    if ms != [] {
      BatchPrefix(b, ms);
      PayEachMarksPaid(b, event, ms[..|ms| - 1], stampOf);
      PayEachBalance(b, event, ms[..|ms| - 1], stampOf);
      PayEachMarksPaidLast(b, event, ms, stampOf);
    }
  }

  /** The last payment of a covered batch, given what the payments before it did to the events. */
  lemma PayEachMarksPaidLast(b: Payments.Books, event: JamEvent, ms: seq<Member>, stampOf: int -> Stamp)
    requires ms != [] && ms[|ms| - 1].id != ""
    requires var p := PayEach(b, event, ms[..|ms| - 1], stampOf);
      p.financials.balance >= ms[|ms| - 1].Payout() &&
      Schedule.OnlyEventChanged(b.events, p.events, event.id) &&
      forall j :: 0 <= j < |b.events| && b.events[j].id == event.id ==>
        forall i :: 0 <= i < |ms| - 1 ==> ms[i].id in p.events[j].paidMembers
    ensures var r := PayEach(b, event, ms, stampOf);
      Schedule.OnlyEventChanged(b.events, r.events, event.id) &&
      forall j :: 0 <= j < |b.events| && b.events[j].id == event.id ==>
        forall i :: 0 <= i < |ms| ==> ms[i].id in r.events[j].paidMembers
  {
    var n := |ms| - 1;
    var p := PayEach(b, event, ms[..n], stampOf);
    PayStepAccepted(p, event, ms[n], stampOf(n));
    assert forall i :: 0 <= i < n ==> ms[..n][i] == ms[i];
    MarksPaidStep(b.events, p.events, event, ms[..n], ms[n]);
    assert ms[..n] + [ms[n]] == ms;
  }

  /** Marking one more member paid keeps everyone already marked and changes no other event. */
  lemma MarksPaidStep(es: seq<JamEvent>, ps: seq<JamEvent>, event: JamEvent, init: seq<Member>, m: Member)
    requires Schedule.OnlyEventChanged(es, ps, event.id)
    requires forall j :: 0 <= j < |es| && es[j].id == event.id ==>
        forall i :: 0 <= i < |init| ==> init[i].id in ps[j].paidMembers
    ensures var rs := Schedule.MarkPaid(ps, event.id, m.id);
      Schedule.OnlyEventChanged(es, rs, event.id) &&
      forall j :: 0 <= j < |es| && es[j].id == event.id ==>
        forall i :: 0 <= i < |init + [m]| ==> (init + [m])[i].id in rs[j].paidMembers
  {
    var rs := Schedule.MarkPaid(ps, event.id, m.id);
    forall j | 0 <= j < |es| && es[j].id == event.id
      ensures forall i :: 0 <= i < |init + [m]| ==> (init + [m])[i].id in rs[j].paidMembers
    {
      forall i | 0 <= i < |init + [m]| ensures (init + [m])[i].id in rs[j].paidMembers {
        if i < |init| {
          assert (init + [m])[i] == init[i];
          assert init[i].id in ps[j].paidMembers;
        }
      }
    }
  }

  /** With no negative rate, the total is not negative. */
  lemma {:induction false} TotalPayoutNonNegative(ms: seq<Member>)
    requires forall i :: 0 <= i < |ms| ==> ms[i].Payout() >= 0
    ensures TotalPayout(ms) >= 0
    decreases |ms|
  {
    if ms != [] {
      TotalPayoutNonNegative(ms[..|ms| - 1]);
    }
  }

  /** The total of a joined list is the sum of the totals of its parts. */
  lemma {:induction false} TotalPayoutSplits(a: seq<Member>, b: seq<Member>)
    ensures TotalPayout(a + b) == TotalPayout(a) + TotalPayout(b)
    decreases |b|
  {
    if b == [] {
      assert a + b == a;
    } else {
      var init := b[..|b| - 1];
      assert (a + b)[..|a + b| - 1] == a + init;
      assert (a + b)[|a + b| - 1] == b[|b| - 1];
      TotalPayoutSplits(a, init);
    }
  }

  /** With no negative rate, no prefix of the list costs more than the whole. */
  lemma TotalPayoutPrefix(ms: seq<Member>, i: int)
    requires forall j :: 0 <= j < |ms| ==> ms[j].Payout() >= 0
    requires 0 <= i <= |ms|
    ensures TotalPayout(ms[..i]) <= TotalPayout(ms)
  {
    assert ms == ms[..i] + ms[i..];
    TotalPayoutSplits(ms[..i], ms[i..]);
    TotalPayoutNonNegative(ms[i..]);
  }

  /**
   * When the balance covers the total of non-negative rates, paying the
   * members one by one in list order never meets a disabled Pay button:
   * each member's rate is covered by what the earlier payments leave.
   */
  lemma CanPayAllCoversEach(balance: int, ms: seq<Member>)
    requires forall j :: 0 <= j < |ms| ==> ms[j].Payout() >= 0
    requires CanPayAll(balance, ms)
    ensures forall i :: 0 <= i < |ms| ==> PayEnabled(balance - TotalPayout(ms[..i]), ms[i])
  {
    forall i | 0 <= i < |ms| ensures PayEnabled(balance - TotalPayout(ms[..i]), ms[i]) {
      TotalPayoutPrefix(ms, i + 1);
      assert ms[..i + 1][..i] == ms[..i];
    }
  }

  /**
   * The members `UnpaidMembers` selects satisfy the loop's conditions: every
   * one has a non-empty id and is checked in to the event but not yet paid.
   */
  lemma UnpaidAreCheckedInAndOwed(event: JamEvent, ms: seq<Member>)
    ensures var unpaid := UnpaidMembers(AttendedMemberDetails(event.checkedInMembers, event.paidMembers, ms));
      forall i :: 0 <= i < |unpaid| ==>
        unpaid[i].id != "" && unpaid[i] in ms &&
        unpaid[i].id in event.checkedInMembers && unpaid[i].id !in event.paidMembers
  {
    var rows := AttendedMemberDetails(event.checkedInMembers, event.paidMembers, ms);
    var unpaid := UnpaidMembers(rows);
    forall i | 0 <= i < |unpaid|
      ensures unpaid[i].id != "" && unpaid[i] in ms
      ensures unpaid[i].id in event.checkedInMembers && unpaid[i].id !in event.paidMembers
    {
      assert unpaid[i] in unpaid;
      assert PayrollRow(unpaid[i], false) in rows;
    }
  }

  /** The members the dialog lists as owed for `event`, in row order. */
  function OwedFor(event: JamEvent, ms: seq<Member>): seq<Member>
  {
    UnpaidMembers(AttendedMemberDetails(event.checkedInMembers, event.paidMembers, ms))
  }

  /** A checked-in id that resolves to a roster member and is not paid yet is listed as owed. */
  lemma OwedIsListed(event: JamEvent, ms: seq<Member>, id: string)
    requires id in event.checkedInMembers && id != "" && FindById(ms, id).Some?
    requires id !in event.paidMembers
    ensures exists i :: 0 <= i < |OwedFor(event, ms)| && OwedFor(event, ms)[i].id == id
  {
    var rows := AttendedMemberDetails(event.checkedInMembers, event.paidMembers, ms);
    var m := FindById(ms, id).value;
    var row :| row in rows && row.member == m;
    assert row == PayrollRow(m, false);
    assert m in OwedFor(event, ms);
  }

  /** The owed list carries no empty id and no negative rate when the roster has none. */
  lemma OwedArePayable(event: JamEvent, ms: seq<Member>)
    requires forall k :: 0 <= k < |ms| ==> ms[k].Payout() >= 0
    ensures var owed := OwedFor(event, ms);
      forall i :: 0 <= i < |owed| ==> owed[i].id != "" && owed[i].Payout() >= 0
  {
    var rows := AttendedMemberDetails(event.checkedInMembers, event.paidMembers, ms);
    var owed := UnpaidMembers(rows);
    forall i | 0 <= i < |owed| ensures owed[i].id != "" && owed[i].Payout() >= 0 {
      assert owed[i] in owed;
      assert PayrollRow(owed[i], false) in rows;
      var k :| 0 <= k < |ms| && ms[k] == owed[i];
    }
  }

  /**
   * An accepted Pay All, run on the list the dialog computes, settles the
   * event: every checked-in id that resolves to a roster member and was not
   * yet paid ends up in the paid set of the stored event, and no other event
   * changes.
   */
  lemma PayAllSettlesEvent(b: Payments.Books, event: JamEvent, ms: seq<Member>, stampOf: int -> Stamp)
    requires forall k :: 0 <= k < |ms| ==> ms[k].Payout() >= 0
    requires CanPayAll(b.financials.balance, OwedFor(event, ms))
    ensures var r := PayEach(b, event, OwedFor(event, ms), stampOf);
      Schedule.OnlyEventChanged(b.events, r.events, event.id) &&
      forall id, j ::
        (id in event.checkedInMembers && id != "" && FindById(ms, id).Some? && id !in event.paidMembers &&
         0 <= j < |b.events| && b.events[j].id == event.id) ==>
        id in r.events[j].paidMembers
  {
    var owed := OwedFor(event, ms);
    var r := PayEach(b, event, owed, stampOf);
    OwedArePayable(event, ms);
    PayEachMarksPaid(b, event, owed, stampOf);
    forall id, j |
      id in event.checkedInMembers && id != "" && FindById(ms, id).Some? && id !in event.paidMembers &&
      0 <= j < |b.events| && b.events[j].id == event.id
      ensures id in r.events[j].paidMembers
    {
      OwedIsListed(event, ms, id);
    }
  }

  /**
   * An event with three checked-in members, the first already paid at 1000
   * and the other two owed 1500 each, against a balance of 2000: the
   * pending total is 3000 and Pay All is refused as a whole.
   */
  lemma ShortfallScenario(a: Member, b: Member, c: Member)
    requires a.Payout() == 1000 && b.Payout() == 1500 && c.Payout() == 1500
    ensures var rows := [PayrollRow(a, true), PayrollRow(b, false), PayrollRow(c, false)];
      UnpaidMembers(rows) == [b, c] &&
      TotalPayout(UnpaidMembers(rows)) == 3000 && !CanPayAll(2000, UnpaidMembers(rows))
  {
    var rows := [PayrollRow(a, true), PayrollRow(b, false), PayrollRow(c, false)];
    assert rows[1..][1..] == rows[2..] && rows[2..][1..] == [];
    var unpaid := [b, c];
    assert UnpaidMembers(rows[2..][1..]) == [];
    assert UnpaidMembers(rows[2..]) == unpaid[1..];
    assert UnpaidMembers(rows[1..]) == unpaid;
    assert UnpaidMembers(rows) == unpaid;
    assert unpaid[..1] == [b] && unpaid[..1][..0] == [];
    assert TotalPayout(unpaid[..1]) == 1500;
  }
}
