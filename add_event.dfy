/**
 * The add dialog (AddEventDialog.java): validate, build a new Event from
 * the trimmed fields, set a non-default status, hand it to the database,
 * and remember whether an event was added. `createOk` is what
 * `createEvent` returned.
 */
module AddEvent {
  import opened Common
  import opened EventEntity
  import opened EventForms

  class AddEventDialog {
    var eventAdded: bool

    constructor ()
      ensures !eventAdded
    {
      eventAdded := false;
    }

    /**
     * A failing check creates nothing. Otherwise the new event has id 0,
     * the trimmed texts, the parsed date (never the fallback), the chosen
     * capacity and status and no attendees; the result is what the
     * database reported.
     */
    method ValidateAndAddEvent(form: AddForm, parse: string -> Option<Date>, today: Date, createOk: bool)
      returns (ok: bool, newEvent: Event?)
      ensures AddFormError(form, parse).Some? ==> !ok && newEvent == null
      ensures AddFormError(form, parse).None? ==>
                && ok == createOk
                && newEvent != null && fresh(newEvent)
                && newEvent.id == 0
                && newEvent.name == Trim(form.name)
                && newEvent.date == parse(Trim(form.date)).value
                && newEvent.location == Trim(form.location)
                && newEvent.description == Trim(form.description)
                && newEvent.capacity == form.capacity
                && newEvent.currentAttendees == 0
                && newEvent.status == form.status
    {
      if AddFormError(form, parse).Some? {
        return false, null;
      }
      newEvent := new Event(0, Trim(form.name), Trim(form.date), Trim(form.location),
                            Trim(form.description), form.capacity, parse, today);
      var selectedStatus := form.status;
      if selectedStatus != PLANNED {
        newEvent.SetStatus(selectedStatus);
      }
      ok := createOk;
    }

    /** The "Add Event" button: the flag is raised only by a valid form the database accepted. */
    method PressAdd(form: AddForm, parse: string -> Option<Date>, today: Date, createOk: bool)
      modifies this`eventAdded
      ensures eventAdded == (old(eventAdded) || (AddFormError(form, parse).None? && createOk))
    {
      var ok, _ := ValidateAndAddEvent(form, parse, today, createOk);
      if ok {
        eventAdded := true;
      }
    }
  }
}
