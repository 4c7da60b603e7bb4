/**
 * The attendee management dialog (AttendeeManagementDialog.java): two
 * batch operations that guard a requested count and then call the
 * entity's single-step operation that many times, and the spinner limits
 * the dialog derives from the event after a successful save.
 * The database update is an input: `updateOk` is what `updateEvent` returned.
 */
module AttendeeManagement {
  import opened Common
  import opened EventEntity

  /** How often `for (int i = 0; i < n; i++)` runs its body. */
  function Iterations(n: int): nat {
    if n < 0 then 0 else n
  }

  /** The counter after `k` calls to `addAttendee`. */
  function AfterAdds(attendees: int, capacity: int, k: nat): int {
    if k == 0 then attendees else AddStep(AfterAdds(attendees, capacity, k - 1), capacity)
  }

  /** The counter after `k` calls to `removeAttendee`. */
  function AfterRemoves(attendees: int, k: nat): int {
    if k == 0 then attendees else RemoveStep(AfterRemoves(attendees, k - 1))
  }

  /** Repeated adds climb one by one and stop at the capacity; a full event never moves. */
  lemma {:induction false} AfterAddsClosedForm(attendees: int, capacity: int, k: nat)
    ensures AfterAdds(attendees, capacity, k)
         == if attendees >= capacity then attendees
            else if attendees + k <= capacity then attendees + k
            else capacity
  {
    if k > 0 {
      AfterAddsClosedForm(attendees, capacity, k - 1);
    }
  }

  /** Repeated removes descend one by one and stop at zero; a count at or below zero never moves. */
  lemma {:induction false} AfterRemovesClosedForm(attendees: int, k: nat)
    ensures AfterRemoves(attendees, k)
         == if attendees <= 0 then attendees
            else if attendees - k >= 0 then attendees - k
            else 0
  {
    if k > 0 {
      AfterRemovesClosedForm(attendees, k - 1);
    }
  }

  /** No call in a batch of at most the available spots reaches the full branch. */
  lemma {:induction false} AddsWithinSpotsAreExact(attendees: int, capacity: int, k: nat)
    requires k <= capacity - attendees
    ensures AfterAdds(attendees, capacity, k) == attendees + k
  {
    AfterAddsClosedForm(attendees, capacity, k);
  }

  /** No call in a batch of at most the current count reaches the zero branch. */
  lemma {:induction false} RemovesWithinCountAreExact(attendees: int, k: nat)
    requires k <= attendees
    ensures AfterRemoves(attendees, k) == attendees - k >= 0
  {
    AfterRemovesClosedForm(attendees, k);
  }

  /**
   * Why exactness needs `capacity - attendees` to fit in an `int`: with a
   * capacity of Integer.MIN_VALUE and one attendee the available spots wrap
   * to Integer.MAX_VALUE, so a batch of five passes the guard, yet the event
   * is full and not one add takes effect.
   */
  lemma WrappedSpotsAdmitIneffectiveBatch()
    ensures Wrap32(INT_MIN - 1) == INT_MAX
    ensures 5 <= Wrap32(INT_MIN - 1) && AfterAdds(1, INT_MIN, 5) == 1
  {
    AfterAddsClosedForm(1, INT_MIN, 5);
  }

  /** The numeric part of the two spinners: maximum and whether each is enabled. */
  datatype SpinnerLimits = SpinnerLimits(addMax: int, removeMax: int, addEnabled: bool, removeEnabled: bool)

  /**
   * Spinner limits for the given available spots and current count. Each
   * spinner's maximum is never below its minimum of 1; it is enabled
   * exactly when its limit is positive, and then every value it offers
   * passes the corresponding batch guard; a disabled spinner still holds 1,
   * which the guard rejects.
   */
  function LimitsFor(available: int, current: int): (l: SpinnerLimits)
    ensures l.addMax >= 1 && l.removeMax >= 1
    ensures l.addEnabled <==> available > 0
    ensures l.removeEnabled <==> current > 0
    ensures l.addEnabled ==> l.addMax == available
    ensures l.removeEnabled ==> l.removeMax == current
    ensures !l.addEnabled ==> l.addMax == 1 && 1 > available
    ensures !l.removeEnabled ==> l.removeMax == 1 && 1 > current
  {
    SpinnerLimits(Max(1, available), Max(1, current), available > 0, current > 0)
  }

  function Max(a: int, b: int): int {
    if a >= b then a else b
  }

  /** A value the add spinner can show is rejected by the guard exactly when the spinner is disabled. */
  lemma AddSpinnerValuesPassGuard(available: int, current: int, toAdd: int)
    requires 1 <= toAdd <= LimitsFor(available, current).addMax
    ensures toAdd <= available <==> LimitsFor(available, current).addEnabled
  {
  }

  datatype BatchOutcome = Rejected | Saved | SaveFailed

  class AttendeeManagementDialog {
    const event: Event
    var limits: SpinnerLimits

    constructor (event: Event)
      ensures this.event == event
      ensures limits == LimitsFor(event.AvailableSpots(), event.currentAttendees)
    {
      this.event := event;
      limits := LimitsFor(event.AvailableSpots(), event.currentAttendees);
    }

    /** Recomputes the spinner limits from the event as it is now. */
    method UpdateDisplay()
      modifies this`limits
      ensures limits == LimitsFor(event.AvailableSpots(), event.currentAttendees)
    {
      var maxAdd := event.AvailableSpots();
      var maxRemove := event.currentAttendees;
      limits := LimitsFor(maxAdd, maxRemove);
    }

    /**
     * More than the available spots: rejected, nothing changes. Otherwise
     * `addAttendee` runs `toAdd` times and the new count stays in memory
     * whatever the database answers; only a successful save refreshes the
     * spinner limits.
     */
    method AddAttendees(toAdd: int32, updateOk: bool) returns (outcome: BatchOutcome)
      modifies event`currentAttendees, this`limits
      ensures toAdd > old(event.AvailableSpots()) ==>
                outcome == Rejected && event.currentAttendees == old(event.currentAttendees) && limits == old(limits)
      ensures toAdd <= old(event.AvailableSpots()) ==>
                && event.currentAttendees == AfterAdds(old(event.currentAttendees), event.capacity, Iterations(toAdd))
                && outcome == (if updateOk then Saved else SaveFailed)
                && limits == (if updateOk then LimitsFor(event.AvailableSpots(), event.currentAttendees) else old(limits))
      ensures toAdd <= old(event.AvailableSpots()) && InInt32(event.capacity - old(event.currentAttendees)) ==>
                event.currentAttendees == old(event.currentAttendees) + Iterations(toAdd)
    {
      var available := event.AvailableSpots();
      if toAdd > available {
        return Rejected;
      }
      ghost var start := event.currentAttendees;
      var i := 0;
      while i < toAdd
        invariant 0 <= i <= Iterations(toAdd)
        invariant event.currentAttendees == AfterAdds(start, event.capacity, i)
        invariant limits == old(limits)
      {
        event.AddAttendee();
        i := i + 1;
      }
      if toAdd >= 0 && InInt32(event.capacity - start) {
        AddsWithinSpotsAreExact(start, event.capacity, Iterations(toAdd));
      }
      if updateOk {
        UpdateDisplay();
        outcome := Saved;
      } else {
        outcome := SaveFailed;
      }
    }

    /**
     * More than the current count: rejected, nothing changes. Otherwise
     * `removeAttendee` runs `toRemove` times, lowering the count by exactly
     * that much; no rollback when the database update fails.
     */
    method RemoveAttendees(toRemove: int32, updateOk: bool) returns (outcome: BatchOutcome)
      modifies event`currentAttendees, this`limits
      ensures toRemove > old(event.currentAttendees) ==>
                outcome == Rejected && event.currentAttendees == old(event.currentAttendees) && limits == old(limits)
      ensures toRemove <= old(event.currentAttendees) ==>
                && event.currentAttendees == old(event.currentAttendees) - Iterations(toRemove)
                && (toRemove >= 0 ==> event.currentAttendees >= 0)
                && outcome == (if updateOk then Saved else SaveFailed)
                && limits == (if updateOk then LimitsFor(event.AvailableSpots(), event.currentAttendees) else old(limits))
    {
      var current := event.currentAttendees;
      if toRemove > current {
        return Rejected;
      }
      var i := 0;
      while i < toRemove
        invariant 0 <= i <= Iterations(toRemove)
        invariant event.currentAttendees == AfterRemoves(current, i)
        invariant limits == old(limits)
      {
        event.RemoveAttendee();
        i := i + 1;
      }
      if toRemove >= 0 {
        RemovesWithinCountAreExact(current, Iterations(toRemove));
      }
      if updateOk {
        UpdateDisplay();
        outcome := Saved;
      } else {
        outcome := SaveFailed;
      }
    }
  }

  /**
   * The scenario of a 100-seat event: 100 single adds fill it, and one more
   * add leaves the count at 100.
   */
  lemma HundredSeatScenario()
    ensures AfterAdds(0, 100, 100) == 100
    ensures AddStep(AfterAdds(0, 100, 100), 100) == 100
  {
    AddsWithinSpotsAreExact(0, 100, 100);
  }
}
