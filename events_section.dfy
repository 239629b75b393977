/**
 * The public events board (src/components/PublicView/EventsSection.tsx):
 * the events split into the ongoing and the upcoming ones, and what the
 * section shows while loading and once the events have arrived.
 */
module EventsSection {
  import opened Events

  /** `events.filter(e => e.status === s)`. */
  function WithStatus(events: seq<Event>, s: Status): (r: seq<Event>)
    ensures |r| <= |events|
    ensures forall i :: 0 <= i < |r| ==> r[i].status == s
  {
    if events == [] then []
    else (if events[0].status == s then [events[0]] else []) + WithStatus(events[1..], s)
  }

  /** `ongoingEvents`: exactly the listed events whose status is 'ongoing'. */
  function OngoingEvents(events: seq<Event>): (r: seq<Event>)
    ensures forall e :: e in r <==> e in events && e.status == Ongoing
  {
    forall e ensures e in WithStatus(events, Ongoing) <==> e in events && e.status == Ongoing {
      WithStatusMembers(events, Ongoing, e);
    }
    WithStatus(events, Ongoing)
  }

  /** `upcomingEvents`: exactly the listed events whose status is 'upcoming'. */
  function UpcomingEvents(events: seq<Event>): (r: seq<Event>)
    ensures forall e :: e in r <==> e in events && e.status == Upcoming
  {
    forall e ensures e in WithStatus(events, Upcoming) <==> e in events && e.status == Upcoming {
      WithStatusMembers(events, Upcoming, e);
    }
    WithStatus(events, Upcoming)
  }

  /** An event is selected exactly when it is listed and has the status. */
  lemma {:induction false} WithStatusMembers(events: seq<Event>, s: Status, e: Event)
    ensures e in WithStatus(events, s) <==> e in events && e.status == s
  {
    if events != [] {
      WithStatusMembers(events[1..], s, e);
      assert events == [events[0]] + events[1..];
    }
  }

  /** Filtering works piecewise, so the selected events keep their original order. */
  lemma {:induction false} WithStatusAppend(a: seq<Event>, b: seq<Event>, s: Status)
    ensures WithStatus(a + b, s) == WithStatus(a, s) + WithStatus(b, s)
  {
    if a != [] {
      assert (a + b)[0] == a[0];
      assert (a + b)[1..] == a[1..] + b;
      WithStatusAppend(a[1..], b, s);
      var head := if a[0].status == s then [a[0]] else [];
      calc {
        WithStatus(a + b, s);
        head + WithStatus(a[1..] + b, s);
        head + (WithStatus(a[1..], s) + WithStatus(b, s));
        (head + WithStatus(a[1..], s)) + WithStatus(b, s);
        WithStatus(a, s) + WithStatus(b, s);
      }
    } else {
      assert a + b == b;
    }
  }

  /** A list whose events all have the status is kept whole, in the same order. */
  lemma {:induction false} WithStatusKeepsAll(events: seq<Event>, s: Status)
    requires forall i :: 0 <= i < |events| ==> events[i].status == s
    ensures WithStatus(events, s) == events
  {
    if events != [] {
      WithStatusKeepsAll(events[1..], s);
      assert [events[0]] + events[1..] == events;
    }
  }

  /**
   * Every event has one of the two statuses, so the two sections partition
   * the events: together they hold every event exactly as often as it is
   * listed, and their lengths add up to the number of events.
   */
  lemma {:induction false} SectionsPartition(events: seq<Event>)
    ensures multiset(OngoingEvents(events)) + multiset(UpcomingEvents(events)) == multiset(events)
    ensures |OngoingEvents(events)| + |UpcomingEvents(events)| == |events|
  {
    if events != [] {
      SectionsPartition(events[1..]);
      assert events == [events[0]] + events[1..];
    }
  }

  /** No event appears in both sections. */
  lemma SectionsDisjoint(events: seq<Event>, e: Event)
    ensures !(e in OngoingEvents(events) && e in UpcomingEvents(events))
  {
    WithStatusMembers(events, Ongoing, e);
    WithStatusMembers(events, Upcoming, e);
  }

  /** What the section renders. */
  datatype View =
    | Spinner  // 'Loading events...'
    | Board(ongoing: seq<Event>, upcoming: seq<Event>,
            showOngoing: bool, showUpcoming: bool, noEventsNotice: bool)

  /**
   * Only the spinner while loading; afterwards each section is shown when
   * it has events, and the 'No events scheduled' notice when there are none.
   */
  function Render(loading: bool, events: seq<Event>): (v: View)
    ensures v.Spinner? <==> loading
    ensures v.Board? ==> v.ongoing == OngoingEvents(events) && v.upcoming == UpcomingEvents(events)
    ensures v.Board? ==> (v.showOngoing <==> v.ongoing != []) && (v.showUpcoming <==> v.upcoming != [])
    ensures v.Board? ==> (v.noEventsNotice <==> events == [])
  {
    if loading then Spinner
    else
      var ongoing := OngoingEvents(events);
      var upcoming := UpcomingEvents(events);
      Board(ongoing, upcoming, |ongoing| > 0, |upcoming| > 0, |events| == 0)
  }

  /** Once loaded, the notice is shown exactly when neither section is. */
  lemma NoticeIffNoSection(events: seq<Event>)
    ensures var v := Render(false, events);
            v.noEventsNotice <==> !v.showOngoing && !v.showUpcoming
  {
    SectionsPartition(events);
  }
}
