/**
 * `handleProcessPayment` in App.tsx: a payment writes two aggregates, the
 * event's paid set and the ledger. `Books` pairs them so that the two writes
 * can be stated, and reasoned about, as one step.
 */
module Payments {
  import opened ClubTypes
  import opened IdSets
  import Schedule
  import Ledger

  datatype Books = Books(events: seq<JamEvent>, financials: Financials)

  function PaymentDescription(memberName: string, eventTitle: string): string
  {
    "Payment to " + memberName + " for " + eventTitle
  }

  /**
   * Pays `m` its rate (a missing rate pays 0) for `event`. Refused, with
   * nothing written, when the balance is below the rate; otherwise the member
   * joins the event's paid set and a transaction of minus the rate is
   * prepended to the ledger.
   */
  function ProcessPayment(b: Books, event: JamEvent, m: Member, stamp: Stamp): (r: Result<Books, Ledger.LedgerError>)
    ensures r.Failure? <==> b.financials.balance < m.Payout()
    ensures r.Success? ==>
      r.value.events == Schedule.MarkPaid(b.events, event.id, m.id) &&
      Ledger.Posted(b.financials, r.value.financials,
                    Transaction(stamp.id, stamp.at, PaymentDescription(m.fullName, event.title), -m.Payout())) &&
      r.value.financials.balance >= 0
    ensures r.Success? && Ledger.Consistent(b.financials) ==> Ledger.Consistent(r.value.financials)
  {
    match Ledger.RemoveFunds(b.financials, stamp, m.Payout(), PaymentDescription(m.fullName, event.title))
    case Failure(e) => Failure(e)
    case Success(f) => Success(Books(Schedule.MarkPaid(b.events, event.id, m.id), f))
  }

  /** The refusal-absorbing step the payroll batch repeats. */
  function PayStep(b: Books, event: JamEvent, m: Member, stamp: Stamp): Books
  {
    match ProcessPayment(b, event, m, stamp)
    case Success(next) => next
    case Failure(_) => b
  }

  /**
   * The payroll dialog keeps the event it was opened with, so after a payment
   * its row still shows the member as unpaid, and the handler does not look
   * at the stored paid set: a second click on the same row pays the member
   * again. With a rate of `p` and a balance of at least `2 * p`, both
   * payments go through, the member was already in the paid set before the
   * second one, and the balance drops by twice the rate.
   */
  lemma SnapshotPaysTwice(b: Books, k: int, m: Member, first: Stamp, second: Stamp)
    requires 0 <= k < |b.events| && m.Payout() > 0 && b.financials.balance >= 2 * m.Payout()
    ensures var event := b.events[k];
      var once := ProcessPayment(b, event, m, first);
      once.Success? && m.id in once.value.events[k].paidMembers &&
      var twice := ProcessPayment(once.value, event, m, second);
      twice.Success? &&
      twice.value.financials.balance == b.financials.balance - 2 * m.Payout() &&
      |twice.value.financials.transactions| == |b.financials.transactions| + 2 &&
      twice.value.financials.transactions[0].amount == -m.Payout() &&
      twice.value.financials.transactions[1].amount == -m.Payout()
  {
  }

  /** Why a guarded payment was refused. */
  datatype Refusal = UnknownEvent | AlreadyPaid | Unaffordable

  /** Some stored event carries `eventId`. */
  predicate HasEvent(es: seq<JamEvent>, eventId: int)
  {
    exists i :: 0 <= i < |es| && es[i].id == eventId
  }

  /** The stored event carrying `eventId` already lists `memberId` as paid. */
  predicate PaidFor(es: seq<JamEvent>, eventId: int, memberId: string)
  {
    exists i :: 0 <= i < |es| && es[i].id == eventId && memberId in es[i].paidMembers
  }

  /**
   * The payment as evidently intended: checked against the stored events,
   * not the caller's copy. It is refused when the event is gone or the
   * member is already paid for it, and is otherwise the handler's payment.
   */
  function ProcessPaymentOnce(b: Books, event: JamEvent, m: Member, stamp: Stamp): (r: Result<Books, Refusal>)
    ensures r.Failure? <==>
      !HasEvent(b.events, event.id) || PaidFor(b.events, event.id, m.id) || b.financials.balance < m.Payout()
    ensures r.Success? ==> Success(r.value) == ProcessPayment(b, event, m, stamp)
  {
    if !HasEvent(b.events, event.id) then Failure(UnknownEvent)
    else if PaidFor(b.events, event.id, m.id) then Failure(AlreadyPaid)
    else
      match ProcessPayment(b, event, m, stamp)
      case Success(next) => Success(next)
      case Failure(_) => Failure(Unaffordable)
  }

  /**
   * Each member is paid at most once per event: after a guarded payment any
   * further one for the same event and member, whatever copy of the event
   * the caller holds, is refused as already paid and writes nothing.
   */
  lemma PaidAtMostOnce(b: Books, event: JamEvent, again: JamEvent, m: Member, first: Stamp, second: Stamp)
    requires again.id == event.id
    ensures var once := ProcessPaymentOnce(b, event, m, first);
      once.Success? ==> ProcessPaymentOnce(once.value, again, m, second) == Failure(AlreadyPaid)
  {
    var once := ProcessPaymentOnce(b, event, m, first);
    if once.Success? {
      assert once.value.events == Schedule.MarkPaid(b.events, event.id, m.id);
      MarkPaidRecords(b.events, event.id, m.id);
    }
  }

  /** Marking a member paid for a stored event leaves it recorded there. */
  lemma MarkPaidRecords(es: seq<JamEvent>, eventId: int, memberId: string)
    requires HasEvent(es, eventId)
    ensures HasEvent(Schedule.MarkPaid(es, eventId, memberId), eventId)
    ensures PaidFor(Schedule.MarkPaid(es, eventId, memberId), eventId, memberId)
  {
    var i :| 0 <= i < |es| && es[i].id == eventId;
    var r := Schedule.MarkPaid(es, eventId, memberId);
    assert r[i].id == eventId && memberId in r[i].paidMembers;
  }

  /**
   * A member with rate 3320 is paid from a balance of 5000: the balance
   * becomes 1680, the member is in the event's paid set, and the new
   * transaction's amount is -3320.
   */
  lemma PayOneMember(es: seq<JamEvent>, k: int, m: Member, stamp: Stamp)
    requires 0 <= k < |es| && m.payRate == Some(3320)
    ensures var r := ProcessPayment(Books(es, Financials(5000, [])), es[k], m, stamp);
      r.Success? && r.value.financials.balance == 1680 &&
      r.value.financials.transactions[0].amount == -3320 &&
      m.id in r.value.events[k].paidMembers
  {
  }
}
