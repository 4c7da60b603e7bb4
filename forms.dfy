/**
 * The ordered validation of the add and edit event forms
 * (AddEventDialog.java, EditEventDialog.java). Each form stops at the
 * first failing check; the add form runs the first four checks, the edit
 * form the same four followed by two on the attendee count.
 */
module EventForms {
  import opened Common

  datatype FormError =
    | NameRequired
    | InvalidDate
    | LocationRequired
    | CapacityNotPositive
    | AttendeesNegative
    | AttendeesExceedCapacity

  /** What the add dialog reads from its widgets. */
  datatype AddForm = AddForm(name: string, date: string, location: string, description: string,
                             capacity: int32, status: string)

  /** What the edit dialog reads from its widgets. */
  datatype EditForm = EditForm(name: string, date: string, location: string, description: string,
                               capacity: int32, attendees: int32, status: string)

  /** The checks in the order the dialogs run them. */
  const AddChecks: seq<FormError> := [NameRequired, InvalidDate, LocationRequired, CapacityNotPositive]
  const EditChecks: seq<FormError> := AddChecks + [AttendeesNegative, AttendeesExceedCapacity]

  /** Whether one check, taken on its own, rejects the given field values. */
  predicate Fails(check: FormError, name: string, date: string, location: string, capacity: int,
                  attendees: int, parse: string -> Option<Date>)
  {
    match check
    case NameRequired => Trim(name) == ""
    case InvalidDate => parse(Trim(date)).None?
    case LocationRequired => Trim(location) == ""
    case CapacityNotPositive => capacity <= 0
    case AttendeesNegative => attendees < 0
    case AttendeesExceedCapacity => attendees > capacity
  }

  /**
   * `r` is the first check of `checks` that fails, or None when all pass:
   * the declarative reading of a chain of early returns.
   */
  ghost predicate IsFirstFailure(r: Option<FormError>, checks: seq<FormError>, name: string, date: string,
                                 location: string, capacity: int, attendees: int, parse: string -> Option<Date>)
  {
    match r
    case None =>
      forall i :: 0 <= i < |checks| ==> !Fails(checks[i], name, date, location, capacity, attendees, parse)
    case Some(e) =>
      exists i :: 0 <= i < |checks| && checks[i] == e
        && Fails(checks[i], name, date, location, capacity, attendees, parse)
        && forall j :: 0 <= j < i ==> !Fails(checks[j], name, date, location, capacity, attendees, parse)
  }

  /**
   * The four checks both dialogs share, as nested early returns: the result
   * is the first failing check in the order name, date, location, capacity.
   */
  function BasicError(name: string, date: string, location: string, capacity: int,
                      parse: string -> Option<Date>): (r: Option<FormError>)
    ensures IsFirstFailure(r, AddChecks, name, date, location, capacity, 0, parse)
  {
    assert AddChecks[0] == NameRequired && AddChecks[1] == InvalidDate;
    assert AddChecks[2] == LocationRequired && AddChecks[3] == CapacityNotPositive;
    if Trim(name) == "" then
      assert Fails(AddChecks[0], name, date, location, capacity, 0, parse);
      Some(NameRequired)
    else if parse(Trim(date)).None? then
      assert Fails(AddChecks[1], name, date, location, capacity, 0, parse);
      Some(InvalidDate)
    else if Trim(location) == "" then
      assert Fails(AddChecks[2], name, date, location, capacity, 0, parse);
      Some(LocationRequired)
    else if capacity <= 0 then
      assert Fails(AddChecks[3], name, date, location, capacity, 0, parse);
      Some(CapacityNotPositive)
    else
      None
  }

  /** The add form's result: None exactly when every check passes, else its first failing check. */
  function AddFormError(f: AddForm, parse: string -> Option<Date>): (r: Option<FormError>)
    ensures IsFirstFailure(r, AddChecks, f.name, f.date, f.location, f.capacity, 0, parse)
  {
    BasicError(f.name, f.date, f.location, f.capacity, parse)
  }

  /**
   * The edit form's result: None exactly when every check passes, else its
   * first failing check in the order name, date, location, capacity,
   * attendees >= 0, attendees <= capacity.
   */
  function EditFormError(f: EditForm, parse: string -> Option<Date>): (r: Option<FormError>)
    ensures IsFirstFailure(r, EditChecks, f.name, f.date, f.location, f.capacity, f.attendees, parse)
  {
    var basic := BasicError(f.name, f.date, f.location, f.capacity, parse);
    if basic.Some? then
      assert EditChecks[..4] == AddChecks;
      BasicErrorIsFirstFailure(EditChecks, f.name, f.date, f.location, f.capacity, f.attendees, parse);
      basic
    else if f.attendees < 0 then
      assert Fails(EditChecks[4], f.name, f.date, f.location, f.capacity, f.attendees, parse);
      Some(AttendeesNegative)
    else if f.attendees > f.capacity then
      assert Fails(EditChecks[5], f.name, f.date, f.location, f.capacity, f.attendees, parse);
      Some(AttendeesExceedCapacity)
    else
      None
  }

  /**
   * The shared checks' failure is also the first failure of any longer list
   * that starts with them, whatever the attendee count.
   */
  lemma BasicErrorIsFirstFailure(checks: seq<FormError>, name: string, date: string, location: string,
                                 capacity: int, attendees: int, parse: string -> Option<Date>)
    requires |checks| >= 4 && checks[..4] == AddChecks
    requires BasicError(name, date, location, capacity, parse).Some?
    ensures IsFirstFailure(BasicError(name, date, location, capacity, parse), checks,
                           name, date, location, capacity, attendees, parse)
  {
    assert checks[0] == NameRequired && checks[1] == InvalidDate;
    assert checks[2] == LocationRequired && checks[3] == CapacityNotPositive;
    var k := if Trim(name) == "" then 0
             else if parse(Trim(date)).None? then 1
             else if Trim(location) == "" then 2
             else 3;
    assert Fails(checks[k], name, date, location, capacity, attendees, parse);
  }

  /** An accepted add form has a non-blank name and location, a parseable date and a positive capacity. */
  lemma AcceptedAddForm(f: AddForm, parse: string -> Option<Date>)
    requires AddFormError(f, parse).None?
    ensures !IsBlank(f.name) && !IsBlank(f.location)
    ensures parse(Trim(f.date)).Some? && f.capacity > 0
  {
  }

  /** An accepted edit form also has an attendee count within [0, capacity]. */
  lemma AcceptedEditForm(f: EditForm, parse: string -> Option<Date>)
    requires EditFormError(f, parse).None?
    ensures !IsBlank(f.name) && !IsBlank(f.location)
    ensures parse(Trim(f.date)).Some? && f.capacity > 0
    ensures 0 <= f.attendees <= f.capacity
  {
  }

  /** A name made only of blanks is refused first, whatever the other fields hold. */
  lemma BlankNameRefusedFirst(f: EditForm, parse: string -> Option<Date>)
    requires IsBlank(f.name)
    ensures EditFormError(f, parse) == Some(NameRequired)
  {
  }
}
