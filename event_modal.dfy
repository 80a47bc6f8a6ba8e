/**
 * The create / edit event dialog (components/EventModal.tsx). The chosen
 * day and time are combined into one timestamp outside the model: `when` is
 * that timestamp, already computed from the date and time fields.
 */
module EventModal {
  import opened ClubTypes
  import Schedule

  /** `isEditMode`: an event was handed to the dialog. */
  predicate IsEditMode(event: Option<JamEvent>)
  {
    event.Some?
  }

  /** The Delete button is rendered only when editing. */
  predicate DeleteOffered(event: Option<JamEvent>)
  {
    IsEditMode(event)
  }

  const DEFAULT_TIME := "18:00"

  /** The dialog's three text fields. */
  datatype Fields = Fields(title: string, date: string, time: string)

  /**
   * The fields the dialog opens with: the event's own when editing (its day
   * and time, formatted outside the model, are `eventDay` and `eventTime`);
   * otherwise an empty title at 18:00 on the selected day, or on today.
   */
  function OpeningFields(event: Option<JamEvent>, eventDay: string, eventTime: string,
                         selectedDate: Option<string>, today: string): (f: Fields)
    ensures event.Some? ==> f == Fields(event.value.title, eventDay, eventTime)
    ensures event.None? ==> f.title == "" && f.time == DEFAULT_TIME
    ensures event.None? ==>
      f.date == (if selectedDate.Some? && selectedDate.value != "" then selectedDate.value else today)
  {
    if event.Some? then Fields(event.value.title, eventDay, eventTime)
    else if selectedDate.Some? && selectedDate.value != "" then Fields("", selectedDate.value, DEFAULT_TIME)
    else Fields("", today, DEFAULT_TIME)
  }

  /** What submitting the dialog does. */
  datatype Action =
    | Refused                             // a field is empty: the alert, nothing else
    | Create(title: string, when: int)    // `onCreate(title, dateTime)`
    | Update(updated: JamEvent)           // `onUpdate({ ...event, title, date })`

  /** `handleSubmit`. */
  function Submit(event: Option<JamEvent>, f: Fields, when: int): (a: Action)
    ensures a.Refused? <==> f.title == "" || f.date == "" || f.time == ""
    ensures a.Create? ==> event.None? && a == Create(f.title, when)
    ensures a.Update? ==> event.Some? && a.updated == event.value.(title := f.title, date := when)
    ensures !a.Refused? ==> (a.Update? <==> IsEditMode(event))
  {
    if f.title == "" || f.date == "" || f.time == "" then Refused
    else if event.Some? then Update(event.value.(title := f.title, date := when))
    else Create(f.title, when)
  }

  /**
   * The Delete button is shown exactly in the dialogs whose accepted save
   * edits an existing event rather than creating one.
   */
  lemma DeleteOfferedIffSaveUpdates(event: Option<JamEvent>, f: Fields, when: int)
    requires f.title != "" && f.date != "" && f.time != ""
    ensures DeleteOffered(event) <==> Submit(event, f, when).Update?
    ensures DeleteOffered(event) ==> Submit(event, f, when).updated.id == event.value.id
  {
  }

  /** An edit keeps the event's id and its three member sets; only the title and the date change. */
  lemma EditKeepsIdentity(e: JamEvent, f: Fields, when: int)
    requires f.title != "" && f.date != "" && f.time != ""
    ensures var a := Submit(Some(e), f, when);
      a.Update? && a.updated.id == e.id && a.updated.attendees == e.attendees &&
      a.updated.checkedInMembers == e.checkedInMembers && a.updated.paidMembers == e.paidMembers &&
      a.updated.title == f.title && a.updated.date == when
  {
  }

  /** The App handler an action reaches, applied to the event list; `newId` is the id a create would draw. */
  function Dispatch(es: seq<JamEvent>, a: Action, newId: int): (r: seq<JamEvent>)
    ensures a.Refused? ==> r == es
  {
    match a
    case Refused => es
    case Create(title, when) => Schedule.CreateEvent(es, newId, title, when)
    case Update(updated) => Schedule.UpdateEvent(es, updated)
  }

  /**
   * Saving an edit of `es[k]`, on a list of unique ids, rewrites that one
   * event's title and date and leaves every other event as it was.
   */
  lemma {:induction false} SavedEditTouchesOneEvent(es: seq<JamEvent>, k: int, f: Fields, when: int, newId: int)
    requires Schedule.EventIdsUnique(es) && 0 <= k < |es|
    requires f.title != "" && f.date != "" && f.time != ""
    ensures var r := Dispatch(es, Submit(Some(es[k]), f, when), newId);
      |r| == |es| && r[k] == es[k].(title := f.title, date := when) &&
      forall i :: 0 <= i < |es| && i != k ==> r[i] == es[i]
  {
    var r := Dispatch(es, Submit(Some(es[k]), f, when), newId);
    assert r == Schedule.UpdateEvent(es, es[k].(title := f.title, date := when));
    forall i | 0 <= i < |es| && i != k ensures r[i] == es[i] {
      assert es[i].id != es[k].id;
    }
  }

  /** Saving a new event appends one event with empty member sets after the existing ones. */
  lemma SavedCreateAppendsEmptyEvent(es: seq<JamEvent>, f: Fields, when: int, newId: int)
    requires f.title != "" && f.date != "" && f.time != ""
    ensures var r := Dispatch(es, Submit(None, f, when), newId);
      r == es + [JamEvent(newId, f.title, when, [], [], [])]
  {
    var r := Dispatch(es, Submit(None, f, when), newId);
    assert r[..|es|] == es;
  }
}
