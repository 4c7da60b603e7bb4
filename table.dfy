/**
 * The main window's event table (EventManagerGUI.java): both builders
 * clear the rows and then append one row per event, `filterEvents` only
 * for the events that match the search text. Event lists come from the
 * database layer and are inputs here; `format` is the `dd-MM-yyyy` date
 * formatter and `lower` is `String.toLowerCase`.
 */
module EventTable {
  import opened Common
  import opened EventEntity

  /** One table row, in column order: id, name, date, location, capacity, attendees, status. */
  datatype Row = Row(id: int32, name: string, date: string, location: string,
                     capacity: int32, attendees: int32, status: string)

  const ALL: string := "All"

  /** The row an event shows: its fields as they are now, with the date formatted. */
  function RowOf(e: Event, format: Date -> string): (r: Row)
    reads e
    ensures r.id == e.id && r.name == e.name && r.date == format(e.date) && r.location == e.location
    ensures r.capacity == e.capacity && r.attendees == e.currentAttendees && r.status == e.status
  {
    Row(e.id, e.name, format(e.date), e.location, e.capacity, e.currentAttendees, e.status)
  }

  /**
   * The search test, given the already lower-cased search text: the text
   * occurs at some offset of the lower-cased name or location. An empty
   * text occurs everywhere, so the source's `isEmpty` short cut changes
   * nothing.
   */
  predicate MatchesSearch(e: Event, searchText: string, lower: string -> string): (r: bool)
    reads e
    ensures r <==> (exists i :: OccursAt(lower(e.name), searchText, i))
                   || (exists i :: OccursAt(lower(e.location), searchText, i))
  {
    ContainsAt(lower(e.name), searchText);
    ContainsAt(lower(e.location), searchText);
    searchText == "" || Contains(lower(e.name), searchText) || Contains(lower(e.location), searchText)
  }

  /** The rows `refreshEventTable` shows for `es`. */
  function Rows(es: seq<Event>, format: Date -> string): seq<Row>
    reads es
  {
    if es == [] then []
    else Rows(es[..|es| - 1], format) + [RowOf(es[|es| - 1], format)]
  }

  /** The rows `filterEvents` shows for `es`. */
  function MatchingRows(es: seq<Event>, searchText: string, lower: string -> string, format: Date -> string): seq<Row>
    reads es
  {
    if es == [] then []
    else
      var last := es[|es| - 1];
      MatchingRows(es[..|es| - 1], searchText, lower, format)
        + (if MatchesSearch(last, searchText, lower) then [RowOf(last, format)] else [])
  }

  /** Exactly one row per event, in list order. */
  lemma {:induction false} RowsOnePerEvent(es: seq<Event>, format: Date -> string)
    ensures |Rows(es, format)| == |es|
    ensures forall i :: 0 <= i < |es| ==> Rows(es, format)[i] == RowOf(es[i], format)
  {
    if es != [] {
      RowsOnePerEvent(es[..|es| - 1], format);
    }
  }

  /** An empty search text keeps every event. */
  lemma {:induction false} EmptySearchKeepsAll(es: seq<Event>, lower: string -> string, format: Date -> string)
    ensures MatchingRows(es, "", lower, format) == Rows(es, format)
  {
    if es != [] {
      EmptySearchKeepsAll(es[..|es| - 1], lower, format);
    }
  }

  /**
   * The filtered rows are the rows of the matching events, in list order:
   * `idx` picks, in increasing positions, exactly the events that match.
   */
  lemma {:induction false} MatchingRowsPick(es: seq<Event>, searchText: string, lower: string -> string,
                                            format: Date -> string)
    returns (idx: seq<int>)
    ensures |idx| == |MatchingRows(es, searchText, lower, format)|
    ensures forall k :: 0 <= k < |idx| ==>
              && 0 <= idx[k] < |es|
              && MatchesSearch(es[idx[k]], searchText, lower)
              && MatchingRows(es, searchText, lower, format)[k] == RowOf(es[idx[k]], format)
    ensures forall k, l :: 0 <= k < l < |idx| ==> idx[k] < idx[l]
    ensures forall i :: 0 <= i < |es| && MatchesSearch(es[i], searchText, lower) ==> i in idx
  {
    if es == [] {
      idx := [];
    } else {
      var n := |es| - 1;
      var front := es[..n];
      var prev := MatchingRowsPick(front, searchText, lower, format);
      var m := MatchingRows(es, searchText, lower, format);
      var pm := MatchingRows(front, searchText, lower, format);
      if MatchesSearch(es[n], searchText, lower) {
        idx := prev + [n];
        assert m == pm + [RowOf(es[n], format)];
      } else {
        idx := prev;
        assert m == pm;
      }
      forall i | 0 <= i < |es| && MatchesSearch(es[i], searchText, lower)
        ensures i in idx
      {
        if i < n {
          assert front[i] == es[i];
        }
      }
    }
  }

  class EventManagerGUI {
    var rows: seq<Row>

    constructor ()
      ensures rows == []
    {
      rows := [];
    }

    /** Clears the table, then shows every event of `allEvents`. */
    method RefreshEventTable(allEvents: seq<Event>, format: Date -> string)
      modifies this`rows
      ensures rows == Rows(allEvents, format)
    {
      rows := [];
      for i := 0 to |allEvents|
        invariant rows == Rows(allEvents[..i], format)
      {
        assert allEvents[..i + 1][..i] == allEvents[..i];
        rows := rows + [RowOf(allEvents[i], format)];
      }
      assert allEvents[..|allEvents|] == allEvents;
    }

    /**
     * Clears the table, takes all events when the status filter is "All"
     * and the status search result otherwise, and shows those whose
     * lower-cased name or location contains the lower-cased search text.
     */
    method FilterEvents(searchField: string, selectedStatus: string, allEvents: seq<Event>,
                        statusEvents: seq<Event>, lower: string -> string, format: Date -> string)
      modifies this`rows
      ensures rows == MatchingRows(if selectedStatus == ALL then allEvents else statusEvents,
                                   lower(searchField), lower, format)
    {
      var searchText := lower(searchField);
      rows := [];
      var events := if selectedStatus == ALL then allEvents else statusEvents;
      for i := 0 to |events|
        invariant rows == MatchingRows(events[..i], searchText, lower, format)
      {
        assert events[..i + 1][..i] == events[..i];
        var event := events[i];
        var matchesSearch := searchText == "" || Contains(lower(event.name), searchText)
                             || Contains(lower(event.location), searchText);
        if matchesSearch {
          rows := rows + [RowOf(event, format)];
        }
      }
      assert events[..|events|] == events;
    }
  }
}
