/**
 * The edit dialog (EditEventDialog.java): validate, then write the
 * trimmed fields into the event being edited through its setters, then
 * save. `updateOk` is what `updateEvent` returned.
 */
module EditEvent {
  import opened Common
  import opened EventEntity
  import opened EventForms

  class EditEventDialog {
    const eventToEdit: Event

    constructor (event: Event)
      ensures eventToEdit == event
    {
      eventToEdit := event;
    }

    /**
     * A failing check leaves the event untouched and returns false.
     * Otherwise every edited field takes the form's (trimmed) value, the
     * date setter always takes the new date, the attendee count ends within
     * [0, capacity], the id is kept, and the result is what the database
     * reported (the event keeps the edits even when the save fails).
     */
    method ValidateAndSaveEvent(form: EditForm, parse: string -> Option<Date>, updateOk: bool)
      returns (saved: bool)
      modifies eventToEdit
      ensures EditFormError(form, parse).Some? ==> !saved && unchanged(eventToEdit)
      ensures EditFormError(form, parse).None? ==>
                && saved == updateOk
                && eventToEdit.id == old(eventToEdit.id)
                && eventToEdit.name == Trim(form.name)
                && eventToEdit.date == parse(Trim(form.date)).value
                && eventToEdit.location == Trim(form.location)
                && eventToEdit.description == Trim(form.description)
                && eventToEdit.capacity == form.capacity
                && eventToEdit.currentAttendees == form.attendees
                && eventToEdit.status == form.status
                && InBounds(eventToEdit.currentAttendees, eventToEdit.capacity)
    {
      if EditFormError(form, parse).Some? {
        return false;
      }
      AcceptedEditForm(form, parse);
      eventToEdit.SetName(Trim(form.name));
      eventToEdit.SetDate(Trim(form.date), parse);
      eventToEdit.SetLocation(Trim(form.location));
      eventToEdit.SetDescription(Trim(form.description));
      eventToEdit.SetCapacity(form.capacity);
      eventToEdit.SetCurrentAttendees(form.attendees);
      eventToEdit.SetStatus(form.status);
      saved := updateOk;
    }
  }
}
