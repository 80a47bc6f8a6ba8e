/**
 * The attendance roster (components/AttendanceRosterModal.tsx): a checklist
 * seeded from an event's check-in set, edited locally, and written back to
 * the event wholesale on save.
 */
module RosterModal {
  import opened ClubTypes
  import opened IdSets
  import opened Text
  import Schedule
  import Club

  /** `handleTogglePresent` on the set: a present id leaves it, an absent one joins. */
  function Toggled(present: seq<string>, id: string): (r: seq<string>)
    ensures NoDup(r)
    ensures id in r <==> id !in present
    ensures forall x :: x != id ==> (x in r <==> x in present)
  {
    if id in present then SetDelete(present, id) else SetAdd(present, id)
  }

  /** Ticking an unticked member and unticking it again restores the checklist exactly. */
  lemma ToggleTwiceRestores(present: seq<string>, id: string)
    requires NoDup(present) && id !in present
    ensures Toggled(Toggled(present, id), id) == present
  {
    AddThenDelete(present, id);
  }

  /** `filteredMembers`: members whose name contains the query, ignoring case, in roster order. */
  function NameFilter(ms: seq<Member>, query: string): (r: seq<Member>)
    ensures |r| <= |ms|
    ensures forall m :: m in r <==> m in ms && MatchesIgnoringCase(m.fullName, query)
  {
    if ms == [] then []
    else
      var rest := NameFilter(ms[1..], query);
      assert forall m :: m in ms <==> m == ms[0] || m in ms[1..];
      if MatchesIgnoringCase(ms[0].fullName, query) then [ms[0]] + rest else rest
  }

  /** One unfolding of the name filter. */
  lemma NameFilterCons(ms: seq<Member>, query: string)
    requires ms != []
    ensures NameFilter(ms, query) ==
      (if MatchesIgnoringCase(ms[0].fullName, query) then [ms[0]] else []) + NameFilter(ms[1..], query)
  {
  }

  /** The name filter keeps roster order: it works part by part on a joined roster. */
  lemma {:induction false} NameFilterSplits(a: seq<Member>, b: seq<Member>, query: string)
    ensures NameFilter(a + b, query) == NameFilter(a, query) + NameFilter(b, query)
  {
    if a == [] {
      assert a + b == b;
    } else {
      NameFilterConsJoin(a, b, query);
      NameFilterSplits(a[1..], b, query);
      NameFilterCons(a, query);
      var head := if MatchesIgnoringCase(a[0].fullName, query) then [a[0]] else [];
      JoinRegroup(NameFilter(a + b, query), NameFilter(a[1..] + b, query),
        NameFilter(a, query), NameFilter(a[1..], query), NameFilter(b, query), head);
    }
  }

  /** One unfolding of the filter on a joined list whose first part is not empty. */
  lemma NameFilterConsJoin(a: seq<Member>, b: seq<Member>, query: string)
    requires a != []
    ensures NameFilter(a + b, query) ==
      (if MatchesIgnoringCase(a[0].fullName, query) then [a[0]] else []) + NameFilter(a[1..] + b, query)
  {
    NameFilterCons(a + b, query);
    assert (a + b)[0] == a[0];
    assert (a + b)[1..] == a[1..] + b;
  }


  function MemberIds(ms: seq<Member>): (ids: seq<string>)
    ensures |ids| == |ms| && forall i :: 0 <= i < |ms| ==> ids[i] == ms[i].id
  {
    seq(|ms|, i requires 0 <= i < |ms| => ms[i].id)
  }

  class AttendanceRoster {
    const eventId: int
    var present: seq<string>

    /** The checklist never holds an id twice. */
    ghost predicate Valid()
      reads this
    {
      NoDup(present)
    }

    /** Opening the checklist for an event ticks exactly its checked-in members. */
    constructor (event: JamEvent)
      ensures Valid() && eventId == event.id
      ensures present == Dedup(event.checkedInMembers)
      ensures forall x :: x in present <==> x in event.checkedInMembers
    {
      eventId := event.id;
      present := Dedup(event.checkedInMembers);
    }

    method TogglePresent(id: string)
      modifies this
      ensures present == Toggled(old(present), id)
      ensures Valid()
    {
      present := Toggled(present, id);
    }

    /** `handleMarkAll`: every member on the roster, or nobody. */
    method MarkAll(markPresent: bool, ms: seq<Member>)
      modifies this
      ensures present == if markPresent then Dedup(MemberIds(ms)) else []
      ensures Valid()
      ensures forall x :: x in present <==> markPresent && exists m :: m in ms && m.id == x
    {
      if markPresent {
        present := Dedup(MemberIds(ms));
        forall x | x in present ensures exists m :: m in ms && m.id == x {
          var k :| 0 <= k < |ms| && MemberIds(ms)[k] == x;
          assert ms[k] in ms;
        }
        forall m | m in ms ensures m.id in present {
          var k :| 0 <= k < |ms| && ms[k] == m;
          assert MemberIds(ms)[k] == m.id;
        }
      } else {
        present := [];
      }
    }

    /** `handleSave`: the event's check-in set becomes the checklist; nothing else changes. */
    method Save(club: Club.ClubState)
      modifies club`events
      ensures club.events == Schedule.UpdateAttendance(old(club.events), eventId, present)
      ensures Valid() ==> forall i :: 0 <= i < |club.events| && club.events[i].id == eventId ==>
        club.events[i].checkedInMembers == present && NoDup(club.events[i].checkedInMembers)
    {
      club.UpdateAttendance(eventId, present);
    }
  }
}
