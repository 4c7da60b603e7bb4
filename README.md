# Event manager: the Event entity and the dialogs that drive it

A Dafny model of the desktop event manager's in-memory logic. It covers:

- the `Event` entity, a record whose fields are updated in place by setters that validate nothing, except that `setDate` ignores a date that does not parse;
- an attendee counter that `addAttendee` and `removeAttendee` move by one within `[0, capacity]`;
- the attendee dialog's batch add and remove, and the spinner limits it derives from the event;
- the ordered validation of the add-event and edit-event forms, and how a valid form is written into an event;
- the main window's table builders: the full refresh and the search filter.

Files and modules:

- `common.dfy` (`Common`): `Option`; an opaque `Date`; Java's 32-bit `int` with wrap-around; `String.trim` (drop chars `<= ' '` at both ends, which is its JDK definition); `String.contains`.
- `event.dfy` (`EventEntity`): class `Event`. The single-step counter functions `AddStep` and `RemoveStep`, and the bound-preservation lemmas.
- `attendees.dfy` (`AttendeeManagement`): class `AttendeeManagementDialog`. The functions for `k` repeated steps (`AfterAdds`, `AfterRemoves`) and their closed forms. The spinner limits.
- `forms.dfy` (`EventForms`): the form checks as pure functions. Each returns the first failing check in the source's order, as a `FormError`.
- `add_event.dfy` (`AddEvent`) and `edit_event.dfy` (`EditEvent`): the two dialog classes.
- `table.dfy` (`EventTable`): class `EventManagerGUI` with its `rows`. The row and match functions and the filter lemmas.

Library behaviour is passed in as parameters:

- `parse: string -> Option<Date>` is `LocalDate.parse` with `yyyy-MM-dd`; `None` means a `DateTimeParseException`.
- `format: Date -> string` is the `dd-MM-yyyy` formatter.
- `lower: string -> string` is `String.toLowerCase`.
- `today` is `LocalDate.now()`.

Database calls are inputs. `updateOk` and `createOk` are what `updateEvent` and `createEvent` returned. `allEvents` and `statusEvents` are the lists from `getAllEvents` and `searchEventsByStatus`.

The code makes these choices:

- The entity enforces nothing. `name` may be empty, `capacity` may be zero or negative, and `currentAttendees` may exceed `capacity` (`setCapacity` and `setCurrentAttendees` are unchecked).
- `0 <= currentAttendees <= capacity` is therefore a property that `addAttendee` and `removeAttendee` preserve, not an object invariant.
- `status` is a plain string that `setStatus` accepts unchecked.
- `getAvailableSpots` is `capacity - currentAttendees` in Java `int` arithmetic. It can be negative, and with extreme unchecked values it can wrap. `WrappedSpotsAdmitIneffectiveBatch` shows the wrapped guard letting through a batch that adds nothing. So `AddAttendees` promises an exact increase only when `capacity - currentAttendees` fits in an `int`.

## Model

| member | source | states |
|---|---|---|
| Common.Wrap32 | Event.java:64-66 | Java `int` subtraction: equals the mathematical difference when that fits in 32 bits, and always differs from it by a multiple of 2^32 |
| Common.TrimIsSlice | AddEventDialog.java:150-153 | `trim` yields a contiguous slice of its argument, and the prefix and suffix it cuts off are all blanks |
| Common.Trim | AddEventDialog.java:115 | `trim` is empty exactly when the argument is all blanks, and otherwise has no blank at either end |
| Common.TrimIdempotent | EditEventDialog.java:178-181 | trimming a value already trimmed and stored changes nothing |
| Common.Contains | EventManagerGUI.java:310-311 | `contains` holds for the empty text, fails when the text is longer than the string, and for equal lengths holds exactly when the two are equal |
| Common.ContainsAt | EventManagerGUI.java:310-311 | `contains` holds exactly when the text occurs at some offset |
| EventEntity.Event.constructor | Event.java:15-31 | copies id, name, location, description, capacity; starts at 0 attendees and status PLANNED; date is the parsed date, or today when parsing fails (never an error) |
| EventEntity.Event.SetId | Event.java:44 | only `id` changes, to the argument |
| EventEntity.Event.SetName | Event.java:45 | only `name` changes, to the argument |
| EventEntity.Event.SetDate | Event.java:46-52 | only `date` may change: to the parsed date, or not at all when the text does not parse |
| EventEntity.Event.SetLocation | Event.java:53 | only `location` changes, to the argument |
| EventEntity.Event.SetDescription | Event.java:54 | only `description` changes, to the argument |
| EventEntity.Event.SetCapacity | Event.java:55 | only `capacity` changes, with no check against the attendee count |
| EventEntity.Event.SetStatus | Event.java:56 | only `status` changes, to any string |
| EventEntity.Event.SetCurrentAttendees | Event.java:57 | only `currentAttendees` changes, with no bound check |
| EventEntity.Event.IsFull | Event.java:60-62 | full exactly when no spot is left, whenever capacity minus attendees fits in an `int` |
| EventEntity.Event.AvailableSpots | Event.java:64-66 | capacity minus attendees whenever that fits in an `int` |
| EventEntity.Event.AddAttendee | Event.java:68-72 | only `currentAttendees` changes: +1 when not full, unchanged when full |
| EventEntity.Event.RemoveAttendee | Event.java:74-78 | only `currentAttendees` changes: -1 when positive, unchanged otherwise |
| EventEntity.AddStep | Event.java:68-72 | one add raises the count by at most one, leaves it unchanged exactly when the event is full, and never takes it past the capacity |
| EventEntity.RemoveStep | Event.java:74-78 | one remove lowers the count by at most one, leaves it unchanged exactly when it is zero or below, and never takes it below zero |
| EventEntity.StepPreservesBounds | Event.java:68-78 | one add or remove keeps `0 <= attendees <= capacity` |
| EventEntity.RunPreservesBounds | Event.java:68-78 | any sequence of adds and removes keeps `0 <= attendees <= capacity` after every call |
| EventEntity.FullIffNoSpots | Event.java:60-66 | with the count in bounds, `isFull` holds exactly when no spot is left, and spots lie in `[0, capacity]` |
| EventEntity.SpotsGoNegative | Event.java:55-66 | after capacity is lowered below the count, available spots are negative and the event counts as full |
| AttendeeManagement.AfterAddsClosedForm | AttendeeManagementDialog.java:145-147 | `k` repeated adds raise the count by `k`, capped at capacity; a full event never moves |
| AttendeeManagement.AfterRemovesClosedForm | AttendeeManagementDialog.java:173-175 | `k` repeated removes lower the count by `k`, stopping at 0; a count at or below 0 never moves |
| AttendeeManagement.AddsWithinSpotsAreExact | AttendeeManagementDialog.java:136-147 | a batch no larger than the available spots raises the count by exactly its size |
| AttendeeManagement.RemovesWithinCountAreExact | AttendeeManagementDialog.java:164-175 | a batch no larger than the count lowers it by exactly its size and ends at or above 0 |
| AttendeeManagement.WrappedSpotsAdmitIneffectiveBatch | AttendeeManagementDialog.java:136-147 | with capacity Integer.MIN_VALUE and one attendee the wrapped guard admits a batch of 5 that adds nothing |
| AttendeeManagement.LimitsFor | AttendeeManagementDialog.java:124-131 | spinner maxima are `max(1, spots)` and `max(1, attendees)`; each spinner is enabled exactly when its limit is positive |
| AttendeeManagement.AddSpinnerValuesPassGuard | AttendeeManagementDialog.java:127-138 | a value the add spinner offers fails the batch guard exactly when the spinner is disabled |
| AttendeeManagement.AttendeeManagementDialog.constructor | AttendeeManagementDialog.java:16-26 | the dialog holds the given event and spinner limits computed from it |
| AttendeeManagement.AttendeeManagementDialog.UpdateDisplay | AttendeeManagementDialog.java:117-132 | spinner limits are recomputed from the event's current spots and count |
| AttendeeManagement.AttendeeManagementDialog.AddAttendees | AttendeeManagementDialog.java:134-160 | more than the available spots: rejected, nothing changes. Otherwise the count equals `toAdd` repeated adds (exactly +`toAdd` when no overflow), whatever the database answers; only a successful save refreshes the limits |
| AttendeeManagement.AttendeeManagementDialog.RemoveAttendees | AttendeeManagementDialog.java:162-188 | more than the count: rejected, nothing changes. Otherwise the count drops by `toRemove` when the request is non-negative (a negative request runs no loop and changes nothing) and then stays >= 0; a successful save refreshes the limits, and a failed save rolls nothing back |
| AttendeeManagement.HundredSeatScenario | Event.java:60-72 | 100 adds fill a 100-seat event; one more add leaves it at 100 |
| EventForms.BasicError | AddEventDialog.java:113-144 | the shared checks: None exactly when name, date, location and capacity all pass, else the first of them that fails |
| EventForms.AddFormError | AddEventDialog.java:113-144 | add form: None exactly when every check passes, else the first failing check in order name, date, location, capacity |
| EventForms.EditFormError | EditEventDialog.java:129-174 | edit form: None exactly when every check passes, else the first failing check in order name, date, location, capacity, attendees >= 0, attendees <= capacity |
| EventForms.BasicErrorIsFirstFailure | EditEventDialog.java:129-160 | a failure of the shared checks is also the first failure of the longer edit-form list, whatever the attendee count |
| EventForms.AcceptedAddForm | AddEventDialog.java:113-144 | an accepted add form has non-blank name and location, a parseable trimmed date and capacity > 0 |
| EventForms.AcceptedEditForm | EditEventDialog.java:129-174 | an accepted edit form also has `0 <= attendees <= capacity` |
| EventForms.BlankNameRefusedFirst | EditEventDialog.java:130-135 | an all-blank name is reported first, whatever the other fields hold |
| AddEvent.AddEventDialog.constructor | AddEventDialog.java:16 | `eventAdded` starts false |
| AddEvent.AddEventDialog.ValidateAndAddEvent | AddEventDialog.java:113-175 | a failing check creates nothing and returns false. Otherwise a new event with id 0, trimmed texts, the parsed date, the capacity, 0 attendees and exactly the selected status; returns what `createEvent` reported |
| AddEvent.AddEventDialog.PressAdd | AddEventDialog.java:96-104 | `eventAdded` becomes true only when the form is valid and `createEvent` succeeds; it never goes back to false |
| EditEvent.EditEventDialog.constructor | EditEventDialog.java:20-30 | the dialog edits the given event |
| EditEvent.EditEventDialog.ValidateAndSaveEvent | EditEventDialog.java:129-198 | a failing check returns false and leaves the event untouched. Otherwise the event has the trimmed texts, the new parsed date (the setter never takes its no-op branch), the capacity, attendees and status, and the same id; the count lies in `[0, capacity]`; returns what `updateEvent` reported |
| EventTable.RowOf | EventManagerGUI.java:282-290 | a row shows the event's current id, name, date formatted, location, capacity, attendee count and status, in that column order |
| EventTable.MatchesSearch | EventManagerGUI.java:309-311 | an event matches exactly when the lower-cased text occurs at some offset of its lower-cased name or location; the empty-text short cut changes nothing |
| EventTable.RowsOnePerEvent | EventManagerGUI.java:279-292 | one row per event in list order, columns id, name, formatted date, location, capacity, attendees, status |
| EventTable.EmptySearchKeepsAll | EventManagerGUI.java:309 | empty search text keeps every event of the source list |
| EventTable.MatchingRowsPick | EventManagerGUI.java:308-325 | filtered rows are the rows of exactly the matching events, at strictly increasing positions of the source list |
| EventTable.EventManagerGUI.constructor | EventManagerGUI.java:143 | the table starts with no rows; the constructor does not fill it |
| EventTable.EventManagerGUI.RefreshEventTable | EventManagerGUI.java:277-293 | the rows are cleared, then the table shows exactly the rows of all events |
| EventTable.EventManagerGUI.FilterEvents | EventManagerGUI.java:295-326 | the rows are cleared. The source is all events for "All" and the status search otherwise. An event is kept iff the lower-cased text is empty or occurs in its lower-cased name or location |

## Left out

- EventDAO.java is not part of this model. Its SQL operations are defined by the database. Their results appear only as inputs: the `updateOk`/`createOk` flags and the event lists.
- The id that `createEvent` writes back into a saved event is not modelled. `ValidateAndAddEvent` describes the event as constructed, with id 0.
- The create-then-fetch round trip and the date ordering of query results are not modelled, for the same reason.
- `EventStatistics.getOccupancyRate` is left out: floating-point division.
- DatabaseConnection.java, Main.java and ReportDialog.java are left out: configuration, I/O, a startup banner and report text.
- EventManager.java, the console menu, is left out. Its guards repeat the entity's own checks.
- Date parsing, date formatting, the clock and `toLowerCase` are parameters. The `java.time` resolver and Unicode case mapping are not modelled.
- `display` and `displaySummary` are left out: console output only.
- The console messages that the constructor (Event.java:28) and `setDate` (Event.java:50) print on a date that does not parse are left out. They are output only; the date each one then keeps is modelled.
- Swing layout, message dialogs, focus requests and labels are left out. The spinners appear only through their numeric maximum and enabled flag.
- The `catch (Exception e)` branches of both dialogs' save steps are not modelled. Nothing they wrap can throw in this model.
- AttendeeManagement.AttendeeManagementDialog.AddAttendees: the exact `+toAdd` promise is stated only when `capacity - currentAttendees` fits in an `int`. Outside that range, Java's wrapped guard can admit a batch that `addAttendee` ignores; see `WrappedSpotsAdmitIneffectiveBatch`.
