/**
 * Club events as stored in the `events` collection
 * (src/components/Admin/EventManager.tsx, src/components/PublicView/EventsSection.tsx):
 * a title, a description and a two-state status. The event form holds the
 * same three fields.
 */
module Events {

  /** 'ongoing' | 'upcoming'. */
  datatype Status = Ongoing | Upcoming

  /** An event document (its date and creation time are not modelled). */
  datatype Event = Event(title: string, description: string, status: Status)

  /** The event form after `resetForm`: empty title and description, status 'upcoming'. */
  const EmptyEventForm: Event := Event("", "", Upcoming)

  /** The new status of the Toggle Status button: always the other one of the two. */
  function Toggled(s: Status): (r: Status)
    ensures r != s
  {
    if s == Ongoing then Upcoming else Ongoing
  }

  /** Toggling twice restores the original status. */
  lemma ToggleTwice(s: Status)
    ensures Toggled(Toggled(s)) == s
  {
  }

  /** The event after a status toggle: the status flips, title and description stay. */
  function WithStatusToggled(e: Event): (r: Event)
    ensures r.status != e.status
    ensures r.title == e.title && r.description == e.description
  {
    e.(status := Toggled(e.status))
  }

  /** Toggling an event twice gives back the same event. */
  lemma ToggleEventTwice(e: Event)
    ensures WithStatusToggled(WithStatusToggled(e)) == e
  {
    ToggleTwice(e.status);
  }

  /** The event form passes validation: title and description are both filled in. */
  predicate EventFormComplete(f: Event) {
    f.title != "" && f.description != ""
  }
}
