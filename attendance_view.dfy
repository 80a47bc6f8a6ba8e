/**
 * The events screen (components/Attendance.tsx): who may take attendance,
 * whether the acting member is going, the RSVP button's guard and toggle,
 * the notice shown after an RSVP, and the oldest-first event list.
 */
module AttendanceView {
  import opened ClubTypes
  import opened Roster
  import Schedule
  import Ordering
  import MembersView

  /** `activeMember`: looked up only when an acting member id is set (and non-empty). */
  function ActiveMember(activeMemberId: Option<string>, ms: seq<Member>): (r: Option<Member>)
    ensures r.Some? ==>
      (activeMemberId.Some? && activeMemberId.value != "" &&
       r.value in ms && r.value.id == activeMemberId.value)
    ensures (activeMemberId.Some? && activeMemberId.value != "" &&
             exists i :: 0 <= i < |ms| && ms[i].id == activeMemberId.value) ==> r.Some?
  {
    if activeMemberId.None? || activeMemberId.value == "" then None
    else FindById(ms, activeMemberId.value)
  }

  /** `canTakeAttendance`: the same owner test that guards role management on the roster screen. */
  predicate CanTakeAttendance(activeMemberId: Option<string>, ms: seq<Member>)
  {
    MembersView.CanManageRoles(ActiveMember(activeMemberId, ms))
  }

  /** On a roster of unique ids, attendance rights belong exactly to the owners. */
  lemma AttendanceRightsAreOwners(ms: seq<Member>, k: int)
    requires IdsUnique(ms) && 0 <= k < |ms| && ms[k].id != ""
    ensures CanTakeAttendance(Some(ms[k].id), ms) <==> HasRole(ms[k], Owner)
  {
    FindByUniqueId(ms, k);
  }

  /** Nobody acting, nobody with attendance rights. */
  lemma NoActiveMemberNoRights(ms: seq<Member>)
    ensures !CanTakeAttendance(None, ms) && !CanTakeAttendance(Some(""), ms)
  {
  }

  /** `isAttending`: the acting member is on the event's attendee list. */
  predicate IsAttending(activeMemberId: Option<string>, e: JamEvent)
  {
    activeMemberId.Some? && activeMemberId.value != "" && activeMemberId.value in e.attendees
  }

  /** The call `handleRsvpClick` makes: `onRsvp(eventId, memberId, isAttending)`. */
  datatype RsvpCall = RsvpCall(eventId: int, memberId: string, attending: bool)

  /** `handleRsvpClick`'s guard: without an acting member nothing is called. */
  function RsvpClick(activeMemberId: Option<string>, e: JamEvent, attending: bool): (c: Option<RsvpCall>)
    ensures c.None? <==> activeMemberId.None? || activeMemberId.value == ""
    ensures c.Some? ==> c.value == RsvpCall(e.id, activeMemberId.value, attending)
  {
    if activeMemberId.None? || activeMemberId.value == "" then None
    else Some(RsvpCall(e.id, activeMemberId.value, attending))
  }

  /** The RSVP button: it asks for the opposite of the current membership. */
  function RsvpButton(activeMemberId: Option<string>, e: JamEvent): Option<RsvpCall>
  {
    RsvpClick(activeMemberId, e, !IsAttending(activeMemberId, e))
  }

  /**
   * Each click on an event's RSVP button flips the acting member's
   * attendance of that event, and of no other.
   */
  lemma RsvpButtonToggles(es: seq<JamEvent>, k: int, memberId: string)
    requires 0 <= k < |es| && memberId != ""
    ensures var c := RsvpButton(Some(memberId), es[k]).value;
      var r := Schedule.Rsvp(es, c.eventId, c.memberId, c.attending);
      (IsAttending(Some(memberId), r[k]) <==> !IsAttending(Some(memberId), es[k])) &&
      forall i :: 0 <= i < |es| && es[i].id != es[k].id ==> r[i] == es[i]
  {
  }

  datatype NoticeKind = SuccessNotice | InfoNotice
  datatype Notice = Notice(message: string, kind: NoticeKind)

  const RSVP_FALLBACK := "Your RSVP has been updated!"

  /**
   * A click's whole effect: the events after the RSVP (applied first) and
   * the notice. `generated` is the generated message, None when generating it
   * threw; the RSVP stands either way.
   */
  function RsvpEffect(es: seq<JamEvent>, activeMemberId: Option<string>, e: JamEvent, attending: bool,
                      generated: Option<string>): (r: (seq<JamEvent>, Option<Notice>))
    ensures RsvpClick(activeMemberId, e, attending).None? ==> r == (es, None)
    ensures RsvpClick(activeMemberId, e, attending).Some? ==>
      r.0 == Schedule.Rsvp(es, e.id, activeMemberId.value, attending) &&
      r.1 == Some(if generated.Some? then Notice(generated.value, SuccessNotice) else Notice(RSVP_FALLBACK, InfoNotice))
  {
    match RsvpClick(activeMemberId, e, attending)
    case None => (es, None)
    case Some(c) =>
      var events := Schedule.Rsvp(es, c.eventId, c.memberId, c.attending);
      (events, Some(match generated
                    case Some(text) => Notice(text, SuccessNotice)
                    case None => Notice(RSVP_FALLBACK, InfoNotice)))
  }

  /** A failed message never undoes or changes the RSVP. */
  lemma RsvpSurvivesMessageFailure(es: seq<JamEvent>, activeMemberId: Option<string>, e: JamEvent,
                                   attending: bool, text: string)
    ensures RsvpEffect(es, activeMemberId, e, attending, None).0 == RsvpEffect(es, activeMemberId, e, attending, Some(text)).0
  {
  }

  /** `sortedEvents`: the events, oldest first. */
  function UpcomingEvents(es: seq<JamEvent>): (r: seq<JamEvent>)
    ensures multiset(r) == multiset(es)
    ensures forall i, j :: 0 <= i < j < |r| ==> r[i].date <= r[j].date
  {
    Ordering.SortByDate(es, true)
  }
}
