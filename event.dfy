/**
 * The Event entity (Event.java): a record of fields updated in place by
 * unvalidated setters, with an attendee counter that `addAttendee` and
 * `removeAttendee` move by one within [0, capacity]. The bound is not an
 * object invariant (the setters can break it); it is a property the two
 * counter operations preserve.
 */
module EventEntity {
  import opened Common

  const PLANNED: string := "PLANNED"

  /**
   * The counter after one `addAttendee`: it moves up by at most one, stays
   * put exactly when the event is full, and never climbs past the capacity.
   */
  function AddStep(attendees: int, capacity: int): (r: int)
    ensures attendees <= r <= attendees + 1
    ensures r == attendees <==> attendees >= capacity
    ensures attendees < capacity ==> r <= capacity
  {
    if attendees >= capacity then attendees else attendees + 1
  }

  /**
   * The counter after one `removeAttendee`: it moves down by at most one,
   * stays put exactly when it is zero or below, and never drops below zero.
   */
  function RemoveStep(attendees: int): (r: int)
    ensures attendees - 1 <= r <= attendees
    ensures r == attendees <==> attendees <= 0
    ensures attendees >= 0 ==> r >= 0
  {
    if attendees > 0 then attendees - 1 else attendees
  }

  datatype AttendeeOp = Add | Remove

  function Step(attendees: int, capacity: int, op: AttendeeOp): int {
    match op
    case Add => AddStep(attendees, capacity)
    case Remove => RemoveStep(attendees)
  }

  /** The counter after a sequence of single-attendee operations, in order. */
  function Run(attendees: int, capacity: int, ops: seq<AttendeeOp>): int
    decreases |ops|
  {
    if ops == [] then attendees
    else Run(Step(attendees, capacity, ops[0]), capacity, ops[1..])
  }

  predicate InBounds(attendees: int, capacity: int) {
    0 <= attendees <= capacity
  }

  /** Either counter operation keeps 0 <= attendees <= capacity. */
  lemma StepPreservesBounds(attendees: int, capacity: int, op: AttendeeOp)
    requires InBounds(attendees, capacity)
    ensures InBounds(Step(attendees, capacity, op), capacity)
  {
  }

  /** Any sequence of counter operations keeps 0 <= attendees <= capacity after every call. */
  lemma {:induction false} RunPreservesBounds(attendees: int, capacity: int, ops: seq<AttendeeOp>)
    requires InBounds(attendees, capacity)
    ensures forall k :: 0 <= k <= |ops| ==> InBounds(Run(attendees, capacity, ops[..k]), capacity)
    decreases |ops|
  {
    if ops != [] {
      var next := Step(attendees, capacity, ops[0]);
      StepPreservesBounds(attendees, capacity, ops[0]);
      RunPreservesBounds(next, capacity, ops[1..]);
      forall k | 0 <= k <= |ops|
        ensures InBounds(Run(attendees, capacity, ops[..k]), capacity)
      {
        if k > 0 {
          assert ops[..k][1..] == ops[1..][..k - 1];
        }
      }
    }
  }

  class Event {
    var id: int32
    var name: string
    var date: Date
    var location: string
    var description: string
    var capacity: int32
    var status: string
    var currentAttendees: int32

    /**
     * Starts with no attendees and status PLANNED; a date text that does not
     * parse falls back to `today` instead of failing.
     */
    constructor (id: int32, name: string, dateStr: string, location: string, description: string,
                 capacity: int32, parse: string -> Option<Date>, today: Date)
      ensures this.id == id && this.name == name && this.location == location
      ensures this.description == description && this.capacity == capacity
      ensures currentAttendees == 0 && status == PLANNED
      ensures parse(dateStr).Some? ==> date == parse(dateStr).value
      ensures parse(dateStr).None? ==> date == today
    {
      this.id := id;
      this.name := name;
      this.location := location;
      this.description := description;
      this.capacity := capacity;
      this.currentAttendees := 0;
      this.status := PLANNED;
      match parse(dateStr)
      case Some(d) =>
        this.date := d;
      case None =>
        this.date := today;
    }

    method SetId(id: int32)
      modifies this`id
      ensures this.id == id
    {
      this.id := id;
    }

    method SetName(name: string)
      modifies this`name
      ensures this.name == name
    {
      this.name := name;
    }

    /** A date text that does not parse leaves the date as it was. */
    method SetDate(dateStr: string, parse: string -> Option<Date>)
      modifies this`date
      ensures parse(dateStr).Some? ==> date == parse(dateStr).value
      ensures parse(dateStr).None? ==> date == old(date)
    {
      match parse(dateStr)
      case Some(d) =>
        date := d;
      case None =>
    }

    method SetLocation(location: string)
      modifies this`location
      ensures this.location == location
    {
      this.location := location;
    }

    method SetDescription(description: string)
      modifies this`description
      ensures this.description == description
    {
      this.description := description;
    }

    /** No check against the attendee count. */
    method SetCapacity(capacity: int32)
      modifies this`capacity
      ensures this.capacity == capacity
    {
      this.capacity := capacity;
    }

    method SetStatus(status: string)
      modifies this`status
      ensures this.status == status
    {
      this.status := status;
    }

    /** No check against zero or the capacity. */
    method SetCurrentAttendees(currentAttendees: int32)
      modifies this`currentAttendees
      ensures this.currentAttendees == currentAttendees
    {
      this.currentAttendees := currentAttendees;
    }

    /** Full exactly when no spot is left, whenever the difference fits in an `int`. */
    predicate IsFull(): (full: bool)
      reads this
      ensures InInt32(capacity - currentAttendees) ==> (full <==> AvailableSpots() <= 0)
    {
      currentAttendees >= capacity
    }

    /** `capacity - currentAttendees` in Java `int` arithmetic; negative once capacity is set below the count. */
    function AvailableSpots(): (spots: int32)
      reads this
      ensures InInt32(capacity - currentAttendees) ==> spots == capacity - currentAttendees
    {
      Wrap32(capacity - currentAttendees)
    }

    method AddAttendee()
      modifies this`currentAttendees
      ensures currentAttendees == AddStep(old(currentAttendees), capacity)
      ensures old(IsFull()) ==> currentAttendees == old(currentAttendees)
      ensures !old(IsFull()) ==> currentAttendees == old(currentAttendees) + 1
    {
      if !IsFull() {
        currentAttendees := currentAttendees + 1;
      }
    }

    method RemoveAttendee()
      modifies this`currentAttendees
      ensures currentAttendees == RemoveStep(old(currentAttendees))
      ensures old(currentAttendees) > 0 ==> currentAttendees == old(currentAttendees) - 1
      ensures old(currentAttendees) <= 0 ==> currentAttendees == old(currentAttendees)
    {
      if currentAttendees > 0 {
        currentAttendees := currentAttendees - 1;
      }
    }
  }

  /**
   * Whenever the counter is within [0, capacity] the two queries agree:
   * full exactly when no spot is left, and the spots never exceed the capacity.
   */
  lemma FullIffNoSpots(e: Event)
    requires InBounds(e.currentAttendees, e.capacity)
    ensures e.IsFull() <==> e.AvailableSpots() <= 0
    ensures 0 <= e.AvailableSpots() <= e.capacity
  {
  }

  /** Lowering the capacity below the count (as the console edit allows) makes the spots negative. */
  lemma SpotsGoNegative(e: Event)
    requires 0 < e.capacity < e.currentAttendees
    ensures e.AvailableSpots() < 0 && e.IsFull()
  {
  }
}
