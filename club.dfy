/**
 * The application state of App.tsx: the roster, the events and the treasury,
 * plus the few UI fields the handlers consult (the member acting as the
 * current user, and the biometric modal's mode and target). Each method is
 * one handler: it computes the next value with the pure functions of Roster,
 * Schedule, Ledger and Payments and installs it, touching no other field.
 */
module Club {
  import opened ClubTypes
  import opened Roster
  import Schedule
  import Ledger
  import Payments

  class ClubState {
    var members: seq<Member>
    var events: seq<JamEvent>
    var financials: Financials
    var activeMemberId: Option<string>
    var fingerprintOpen: bool
    var fingerprintMode: FingerprintMode
    var fingerprintMember: Option<Member>
    var fingerprintEvent: Option<JamEvent>

    /** The ledger lockstep invariant. */
    ghost predicate Valid()
      reads this
    {
      Ledger.Consistent(financials)
    }

    /** The state before anything is loaded. */
    constructor ()
      ensures Valid()
      ensures members == [] && events == [] && financials == Financials(0, [])
      ensures activeMemberId == None && !fingerprintOpen && fingerprintMode == RegisterMode
    {
      members := [];
      events := [];
      financials := Financials(0, []);
      activeMemberId := None;
      fingerprintOpen := false;
      fingerprintMode := RegisterMode;
      fingerprintMember := None;
      fingerprintEvent := None;
    }

    /**
     * The mount effect: stored records are used when present, the seed data
     * otherwise; the first member becomes the acting user.
     */
    method Load(storedMembers: seq<Member>, storedEvents: seq<JamEvent>, storedFinancials: Option<Financials>,
                avatar: string, nextSaturday: int, twoWeeksLater: int)
      modifies this`members, this`events, this`financials, this`activeMemberId
      ensures members == if storedMembers != [] then storedMembers else InitialMembers(avatar)
      ensures members != [] && activeMemberId == Some(members[0].id)
      ensures events == if storedEvents != [] then storedEvents else
        [JamEvent(1, "Weekly Jam Session", nextSaturday, ["1", "2"], ["1", "2"], []),
         Schedule.NewEvent(2, "Rhythm Workshop", twoWeeksLater)]
      ensures financials == if storedFinancials.Some? then storedFinancials.value else Ledger.Empty()
      ensures storedMembers == [] ==> IdsUnique(members) && WithinCeilings(members)
      ensures (storedFinancials.Some? ==> Ledger.Consistent(storedFinancials.value)) ==> Valid()
    {
      members := if storedMembers != [] then storedMembers else InitialMembers(avatar);
      activeMemberId := Some(members[0].id);
      events := if storedEvents != [] then storedEvents else
        [JamEvent(1, "Weekly Jam Session", nextSaturday, ["1", "2"], ["1", "2"], []),
         Schedule.NewEvent(2, "Rhythm Workshop", twoWeeksLater)];
      financials := if storedFinancials.Some? then storedFinancials.value else Ledger.Empty();
    }

    /** The `verify` parameter of the address, when present and non-empty, verifies its member. */
    method VerifyFromLink(verifyToken: Option<string>)
      modifies this`members
      ensures verifyToken.Some? && verifyToken.value != [] ==> members == Verify(old(members), verifyToken.value)
      ensures !(verifyToken.Some? && verifyToken.value != []) ==> members == old(members)
      ensures |members| == |old(members)|
      ensures forall i :: 0 <= i < |members| ==> members[i].id == old(members)[i].id
    {
      if verifyToken.Some? && verifyToken.value != [] {
        members := Verify(members, verifyToken.value);
      }
    }

    /** `handleAddMember`: the new member is appended. */
    method AddMember(m: Member)
      modifies this`members
      ensures members == old(members) + [m]
      ensures old(WithinCeilings(members)) && !HasRole(m, Owner) && !HasRole(m, FinanceOfficer) ==>
        WithinCeilings(members)
      ensures old(IdsUnique(members)) && (forall i :: 0 <= i < |old(members)| ==> old(members)[i].id != m.id) ==>
        IdsUnique(members)
    {
      RoleCountAppend(members, m, Owner);
      RoleCountAppend(members, m, FinanceOfficer);
      members := members + [m];
    }

    /**
     * `handleUpdateMember`: a trusted wholesale overwrite. The ceilings survive
     * when the new record keeps the role flags of the record it replaces.
     */
    method UpdateMember(updated: Member)
      modifies this`members
      ensures members == ReplaceById(old(members), updated)
      ensures (old(WithinCeilings(members)) &&
                forall i :: 0 <= i < |old(members)| && old(members)[i].id == updated.id ==>
                  HasRole(old(members)[i], Owner) == HasRole(updated, Owner) &&
                  HasRole(old(members)[i], FinanceOfficer) == HasRole(updated, FinanceOfficer))
        ==> WithinCeilings(members)
    {
      var next := ReplaceById(members, updated);
      RoleCountPointwiseIf(members, next, Owner);
      RoleCountPointwiseIf(members, next, FinanceOfficer);
      members := next;
    }

    /** `handleToggleOwner`; a refusal comes back as the error and changes nothing. */
    method ToggleOwner(id: string) returns (refusal: Option<RoleError>)
      modifies this`members
      ensures match ToggleRole(old(members), Owner, id)
        case Success(ms) => members == ms && refusal == None
        case Failure(e) => members == old(members) && refusal == Some(e)
      ensures old(IdsUnique(members) && WithinCeilings(members)) ==> IdsUnique(members) && WithinCeilings(members)
    {
      refusal := ToggleIn(Owner, id);
    }

    /** `handleToggleFinanceOfficer`; a refusal comes back as the error and changes nothing. */
    method ToggleFinanceOfficer(id: string) returns (refusal: Option<RoleError>)
      modifies this`members
      ensures match ToggleRole(old(members), FinanceOfficer, id)
        case Success(ms) => members == ms && refusal == None
        case Failure(e) => members == old(members) && refusal == Some(e)
      ensures old(IdsUnique(members) && WithinCeilings(members)) ==> IdsUnique(members) && WithinCeilings(members)
    {
      refusal := ToggleIn(FinanceOfficer, id);
    }

    method ToggleIn(role: Role, id: string) returns (refusal: Option<RoleError>)
      modifies this`members
      ensures match ToggleRole(old(members), role, id)
        case Success(ms) => members == ms && refusal == None
        case Failure(e) => members == old(members) && refusal == Some(e)
      ensures old(IdsUnique(members) && WithinCeilings(members)) ==> IdsUnique(members) && WithinCeilings(members)
    {
      if IdsUnique(members) && WithinCeilings(members) {
        ToggleKeepsCeiling(members, role, id);
        ToggleLeavesOtherRole(members, role, if role == Owner then FinanceOfficer else Owner, id);
      }
      match ToggleRole(members, role, id)
      case Success(ms) =>
        members := ms;
        refusal := None;
      case Failure(e) =>
        refusal := Some(e);
    }

    /** `handleUpdateAttendance`: the roster checklist replaces the event's check-in set. */
    method UpdateAttendance(eventId: int, present: seq<string>)
      modifies this`events
      ensures events == Schedule.UpdateAttendance(old(events), eventId, present)
    {
      events := Schedule.UpdateAttendance(events, eventId, present);
    }

    /** `handleRsvp`. */
    method Rsvp(eventId: int, memberId: string, attending: bool)
      modifies this`events
      ensures events == Schedule.Rsvp(old(events), eventId, memberId, attending)
    {
      events := Schedule.Rsvp(events, eventId, memberId, attending);
    }

    /** `handleCreateEvent`; `id` stands for the creation time the source uses as id. */
    method CreateEvent(id: int, title: string, date: int)
      modifies this`events
      ensures events == Schedule.CreateEvent(old(events), id, title, date)
    {
      events := Schedule.CreateEvent(events, id, title, date);
    }

    /** `handleUpdateEvent`. */
    method UpdateEvent(updated: JamEvent)
      modifies this`events
      ensures events == Schedule.UpdateEvent(old(events), updated)
    {
      events := Schedule.UpdateEvent(events, updated);
    }

    /** `handleDeleteEvent`; `confirmed` is the user's answer to the confirmation prompt. */
    method DeleteEvent(eventId: int, confirmed: bool)
      modifies this`events
      ensures events == Schedule.DeleteEvent(old(events), eventId, confirmed)
      ensures !confirmed ==> events == old(events)
    {
      events := Schedule.DeleteEvent(events, eventId, confirmed);
    }

    /** `handleRegisterBiometrics`: the modal opens in registration mode for `m`. */
    method OpenRegisterBiometrics(m: Member)
      modifies this`fingerprintOpen, this`fingerprintMode, this`fingerprintMember, this`fingerprintEvent
      ensures fingerprintOpen && fingerprintMode == RegisterMode
      ensures fingerprintMember == Some(m) && fingerprintEvent == None
    {
      fingerprintOpen, fingerprintMode, fingerprintMember, fingerprintEvent := true, RegisterMode, Some(m), None;
    }

    /** `handleCheckInBiometrics`: the modal opens in check-in mode for `e`. */
    method OpenCheckInBiometrics(e: JamEvent)
      modifies this`fingerprintOpen, this`fingerprintMode, this`fingerprintMember, this`fingerprintEvent
      ensures fingerprintOpen && fingerprintMode == CheckInMode
      ensures fingerprintMember == None && fingerprintEvent == Some(e)
    {
      fingerprintOpen, fingerprintMode, fingerprintMember, fingerprintEvent := true, CheckInMode, None, Some(e);
    }

    /** Closing the modal resets it to a closed registration modal. */
    method CloseBiometrics()
      modifies this`fingerprintOpen, this`fingerprintMode, this`fingerprintMember, this`fingerprintEvent
      ensures !fingerprintOpen && fingerprintMode == RegisterMode
      ensures fingerprintMember == None && fingerprintEvent == None
    {
      fingerprintOpen, fingerprintMode, fingerprintMember, fingerprintEvent := false, RegisterMode, None, None;
    }

    /**
     * `handleBiometricSuccess`: only in check-in mode with an event, the
     * member id joins that event's check-in set; nothing is ever removed.
     */
    method BiometricSuccess(memberId: string)
      modifies this`events
      ensures fingerprintMode == CheckInMode && fingerprintEvent.Some? ==>
        events == Schedule.AddCheckIn(old(events), fingerprintEvent.value.id, memberId)
      ensures !(fingerprintMode == CheckInMode && fingerprintEvent.Some?) ==> events == old(events)
      ensures |events| == |old(events)|
      ensures forall i :: 0 <= i < |events| ==>
        forall x :: x in old(events)[i].checkedInMembers ==> x in events[i].checkedInMembers
    {
      if fingerprintMode == CheckInMode && fingerprintEvent.Some? {
        events := Schedule.AddCheckIn(events, fingerprintEvent.value.id, memberId);
      }
    }

    /** `handleAddFunds`. */
    method AddFunds(amount: int, description: string, stamp: Stamp)
      modifies this`financials
      ensures financials == Ledger.AddFunds(old(financials), stamp, amount, description)
      ensures old(Valid()) ==> Valid()
    {
      financials := Ledger.AddFunds(financials, stamp, amount, description);
    }

    /** `handleRemoveFunds`; a refusal leaves the ledger untouched. */
    method RemoveFunds(amount: int, description: string, stamp: Stamp) returns (refused: bool)
      modifies this`financials
      ensures refused <==> old(financials).balance < amount
      ensures refused ==> financials == old(financials)
      ensures !refused ==> financials == Ledger.RemoveFunds(old(financials), stamp, amount, description).value
      ensures old(Valid()) ==> Valid()
    {
      match Ledger.RemoveFunds(financials, stamp, amount, description)
      case Success(f) =>
        financials := f;
        refused := false;
      case Failure(_) =>
        refused := true;
    }

    /**
     * `handleProcessPayment`: both writes happen, or neither does. `event` is
     * the caller's copy; only its id and title are used.
     */
    method ProcessPayment(event: JamEvent, m: Member, stamp: Stamp) returns (refused: bool)
      modifies this`events, this`financials
      ensures refused <==> old(financials).balance < m.Payout()
      ensures refused ==> events == old(events) && financials == old(financials)
      ensures !refused ==>
        (Payments.Books(events, financials)
         == Payments.ProcessPayment(Payments.Books(old(events), old(financials)), event, m, stamp).value)
      ensures Payments.Books(events, financials)
        == Payments.PayStep(Payments.Books(old(events), old(financials)), event, m, stamp)
      ensures old(Valid()) ==> Valid()
    {
      match Payments.ProcessPayment(Payments.Books(events, financials), event, m, stamp)
      case Success(b) =>
        events, financials := b.events, b.financials;
        refused := false;
      case Failure(_) =>
        refused := true;
    }

    /** `canViewFinance`: the acting member is an owner or a finance officer. */
    function CanViewFinance(): (b: bool)
      reads this
      ensures b <==>
        (activeMemberId.Some? &&
         exists i :: 0 <= i < |members| && members[i].id == activeMemberId.value &&
           (HasRole(members[i], Owner) || HasRole(members[i], FinanceOfficer)) &&
           forall j :: 0 <= j < i ==> members[j].id != activeMemberId.value)
    {
      if activeMemberId.None? then false
      else
        var k := IndexOfId(members, activeMemberId.value);
        k != -1 && (HasRole(members[k], Owner) || HasRole(members[k], FinanceOfficer))
    }
  }

  /** Counts agree when the flags agree at the replaced positions and nothing else changed. */
  lemma RoleCountPointwiseIf(a: seq<Member>, b: seq<Member>, role: Role)
    requires |a| == |b|
    ensures (forall i :: 0 <= i < |a| ==> HasRole(a[i], role) == HasRole(b[i], role)) ==>
      RoleCount(a, role) == RoleCount(b, role)
  {
    if forall i :: 0 <= i < |a| ==> HasRole(a[i], role) == HasRole(b[i], role) {
      RoleCountPointwise(a, b, role);
    }
  }
}
