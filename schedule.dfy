/**
 * The next-value computations of the event handlers in App.tsx: RSVP,
 * wholesale roster check-in, biometric check-in, marking a member paid, and
 * event create / update / delete.
 */
module Schedule {
  import opened ClubTypes
  import opened IdSets

  /** `r` differs from `es` at most in the events whose id is `id`, and no event moved. */
  predicate OnlyEventChanged(es: seq<JamEvent>, r: seq<JamEvent>, id: int)
  {
    |r| == |es| &&
    forall i :: 0 <= i < |es| ==> r[i].id == es[i].id && (es[i].id != id ==> r[i] == es[i])
  }

  predicate EventIdsUnique(es: seq<JamEvent>)
  {
    forall i, j :: 0 <= i < j < |es| ==> es[i].id != es[j].id
  }

  /** `handleUpdateAttendance`: the check-in list of the event is replaced wholesale. */
  function UpdateAttendance(es: seq<JamEvent>, eventId: int, present: seq<string>): (r: seq<JamEvent>)
    ensures OnlyEventChanged(es, r, eventId)
    ensures forall i :: 0 <= i < |es| && es[i].id == eventId ==>
      r[i].checkedInMembers == present && r[i] == es[i].(checkedInMembers := present)
  {
    seq(|es|, i requires 0 <= i < |es| =>
      if es[i].id == eventId then es[i].(checkedInMembers := present) else es[i])
  }

  /**
   * `handleRsvp`: the member id is added to (attending) or removed from (not
   * attending) the event's attendees, with set semantics.
   */
  function Rsvp(es: seq<JamEvent>, eventId: int, memberId: string, attending: bool): (r: seq<JamEvent>)
    ensures OnlyEventChanged(es, r, eventId)
    ensures forall i :: 0 <= i < |es| && es[i].id == eventId ==>
      r[i] == es[i].(attendees := r[i].attendees) && NoDup(r[i].attendees) &&
      (attending ==> Occurrences(r[i].attendees, memberId) == 1) &&
      (!attending ==> memberId !in r[i].attendees) &&
      forall x :: x != memberId ==> (x in r[i].attendees <==> x in es[i].attendees)
  {
    seq(|es|, i requires 0 <= i < |es| =>
      if es[i].id != eventId then es[i]
      else if attending then es[i].(attendees := SetAdd(es[i].attendees, memberId))
      else es[i].(attendees := SetDelete(es[i].attendees, memberId)))
  }

  /**
   * Saying yes and then no restores the attendee list exactly, provided the
   * member was not on it and it held no repeats.
   */
  lemma RsvpYesThenNo(es: seq<JamEvent>, eventId: int, memberId: string)
    requires forall i :: 0 <= i < |es| && es[i].id == eventId ==>
      NoDup(es[i].attendees) && memberId !in es[i].attendees
    ensures Rsvp(Rsvp(es, eventId, memberId, true), eventId, memberId, false) == es
  {
    var yes := Rsvp(es, eventId, memberId, true);
    var no := Rsvp(yes, eventId, memberId, false);
    forall i | 0 <= i < |es| ensures no[i] == es[i] {
      if es[i].id == eventId {
        AddThenDelete(es[i].attendees, memberId);
      }
    }
  }

  /** Saying yes twice is saying yes once. */
  lemma RsvpYesIdempotent(es: seq<JamEvent>, eventId: int, memberId: string)
    ensures Rsvp(Rsvp(es, eventId, memberId, true), eventId, memberId, true)
         == Rsvp(es, eventId, memberId, true)
  {
    var once := Rsvp(es, eventId, memberId, true);
    var twice := Rsvp(once, eventId, memberId, true);
    forall i | 0 <= i < |es| ensures twice[i] == once[i] {
      if es[i].id == eventId {
        SetAddPresent(once[i].attendees, memberId);
      }
    }
  }

  /** `handleBiometricSuccess`: one member id is added to the event's check-in set. */
  function AddCheckIn(es: seq<JamEvent>, eventId: int, memberId: string): (r: seq<JamEvent>)
    ensures OnlyEventChanged(es, r, eventId)
    ensures forall i :: 0 <= i < |es| && es[i].id == eventId ==>
      r[i] == es[i].(checkedInMembers := r[i].checkedInMembers) &&
      NoDup(r[i].checkedInMembers) && Occurrences(r[i].checkedInMembers, memberId) == 1 &&
      forall x :: x in r[i].checkedInMembers <==> x in es[i].checkedInMembers || x == memberId
  {
    seq(|es|, i requires 0 <= i < |es| =>
      if es[i].id == eventId then es[i].(checkedInMembers := SetAdd(es[i].checkedInMembers, memberId))
      else es[i])
  }

  /** The payment handler's first write: the member id joins the event's paid set. */
  function MarkPaid(es: seq<JamEvent>, eventId: int, memberId: string): (r: seq<JamEvent>)
    ensures OnlyEventChanged(es, r, eventId)
    ensures forall i :: 0 <= i < |es| && es[i].id == eventId ==>
      r[i] == es[i].(paidMembers := r[i].paidMembers) &&
      NoDup(r[i].paidMembers) && Occurrences(r[i].paidMembers, memberId) == 1 &&
      forall x :: x in r[i].paidMembers <==> x in es[i].paidMembers || x == memberId
  {
    seq(|es|, i requires 0 <= i < |es| =>
      if es[i].id == eventId then es[i].(paidMembers := SetAdd(es[i].paidMembers, memberId))
      else es[i])
  }

  /** The record `handleCreateEvent` builds: all three member sets start empty. */
  function NewEvent(id: int, title: string, date: int): (e: JamEvent)
    ensures e.id == id && e.title == title && e.date == date
    ensures e.attendees == [] && e.checkedInMembers == [] && e.paidMembers == []
  {
    JamEvent(id, title, date, [], [], [])
  }

  /** `handleCreateEvent`: the new event is appended. */
  function CreateEvent(es: seq<JamEvent>, id: int, title: string, date: int): (r: seq<JamEvent>)
    ensures |r| == |es| + 1 && r[..|es|] == es && r[|es|] == NewEvent(id, title, date)
    ensures EventIdsUnique(es) && (forall i :: 0 <= i < |es| ==> es[i].id != id) ==> EventIdsUnique(r)
  {
    es + [NewEvent(id, title, date)]
  }

  /** `handleUpdateEvent`: every event with the updated record's id is replaced by it. */
  function UpdateEvent(es: seq<JamEvent>, updated: JamEvent): (r: seq<JamEvent>)
    ensures OnlyEventChanged(es, r, updated.id)
    ensures forall i :: 0 <= i < |es| && es[i].id == updated.id ==> r[i] == updated
  {
    seq(|es|, i requires 0 <= i < |es| => if es[i].id == updated.id then updated else es[i])
  }

  /** `prev.filter(e => e.id !== eventId)`. */
  function RemoveEvent(es: seq<JamEvent>, eventId: int): (r: seq<JamEvent>)
    ensures |r| <= |es|
    ensures forall e :: e in r <==> e in es && e.id != eventId
  {
    if es == [] then []
    else
      var rest := RemoveEvent(es[1..], eventId);
      assert es == [es[0]] + es[1..];
      assert forall e :: e in es <==> e == es[0] || e in es[1..];
      if es[0].id == eventId then rest else [es[0]] + rest
  }

  /** `handleDeleteEvent`: the event goes only once the user confirms. */
  function DeleteEvent(es: seq<JamEvent>, eventId: int, confirmed: bool): (r: seq<JamEvent>)
    ensures !confirmed ==> r == es
    ensures confirmed ==> forall e :: e in r <==> e in es && e.id != eventId
    ensures confirmed ==> forall e :: multiset(r)[e] == if e.id == eventId then 0 else multiset(es)[e]
  {
    if confirmed then RemoveEventCounts(es, eventId); RemoveEvent(es, eventId) else es
  }

  /**
   * Deleting drops every copy of each event carrying the id and keeps every
   * other event exactly as often as the list held it.
   */
  lemma {:induction false} RemoveEventCounts(es: seq<JamEvent>, eventId: int)
    ensures forall e :: multiset(RemoveEvent(es, eventId))[e] == if e.id == eventId then 0 else multiset(es)[e]
  {
    if es != [] {
      RemoveEventCounts(es[1..], eventId);
      RemoveEventCons(es, eventId);
      CountsStep(es, RemoveEvent(es[1..], eventId), RemoveEvent(es, eventId), eventId);
    }
  }

  /** The counts of a filtered list, one element further along. */
  lemma CountsStep(es: seq<JamEvent>, kept: seq<JamEvent>, r: seq<JamEvent>, eventId: int)
    requires es != [] && r == (if es[0].id == eventId then [] else [es[0]]) + kept
    requires forall e :: multiset(kept)[e] == if e.id == eventId then 0 else multiset(es[1..])[e]
    ensures forall e :: multiset(r)[e] == if e.id == eventId then 0 else multiset(es)[e]
  {
    assert es == [es[0]] + es[1..];
  }

  /**
   * The filter works list piece by list piece: deleting from a joined list
   * deletes from each part and keeps them in their order.
   */
  lemma {:induction false} RemoveEventSplits(a: seq<JamEvent>, b: seq<JamEvent>, eventId: int)
    ensures RemoveEvent(a + b, eventId) == RemoveEvent(a, eventId) + RemoveEvent(b, eventId)
  {
    if a == [] {
      assert a + b == b;
    } else {
      var head := if a[0].id == eventId then [] else [a[0]];
      calc {
        RemoveEvent(a + b, eventId);
        { RemoveEventCons(a + b, eventId); assert (a + b)[0] == a[0]; }
        head + RemoveEvent((a + b)[1..], eventId);
        { assert (a + b)[1..] == a[1..] + b; }
        head + RemoveEvent(a[1..] + b, eventId);
        { RemoveEventSplits(a[1..], b, eventId); }
        head + (RemoveEvent(a[1..], eventId) + RemoveEvent(b, eventId));
        (head + RemoveEvent(a[1..], eventId)) + RemoveEvent(b, eventId);
        { RemoveEventCons(a, eventId); }
        RemoveEvent(a, eventId) + RemoveEvent(b, eventId);
      }
    }
  }

  /** One unfolding of the filter. */
  lemma RemoveEventCons(es: seq<JamEvent>, eventId: int)
    requires es != []
    ensures RemoveEvent(es, eventId) ==
      (if es[0].id == eventId then [] else [es[0]]) + RemoveEvent(es[1..], eventId)
  {
  }

  /** Appending one event: it survives the delete exactly when it does not carry the id. */
  lemma RemoveEventAppend(es: seq<JamEvent>, e: JamEvent, eventId: int)
    ensures RemoveEvent(es + [e], eventId) == RemoveEvent(es, eventId) + (if e.id == eventId then [] else [e])
  {
    RemoveEventSplits(es, [e], eventId);
  }

  /** Deleting an id no event carries leaves the list exactly as it was. */
  lemma {:induction false} RemoveAbsentEvent(es: seq<JamEvent>, eventId: int)
    requires forall i :: 0 <= i < |es| ==> es[i].id != eventId
    ensures RemoveEvent(es, eventId) == es
  {
    if es != [] {
      RemoveAbsentEvent(es[1..], eventId);
      assert [es[0]] + es[1..] == es;
    }
  }
}
