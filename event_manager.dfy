/**
 * The event manager of the admin panel (src/components/Admin/EventManager.tsx)
 * as a stateful object: the `events` collection and the component state
 * (form, edit target, form visibility, delete dialog) its handlers update.
 */
module EventAdmin {
  import opened Common
  import opened Events

  class EventManager {
    var events: map<Id, Event>
    var form: Event
    var editing: Option<Id>   // the id of the event being edited, if any
    var showForm: bool
    var deleteDialog: Option<Id>
    /** Every id the database has ever handed out for this collection. */
    ghost var issued: set<Id>

    ghost predicate Valid()
      reads this
    {
      events.Keys <= issued
    }

    /** The component as mounted over the current collection. */
    constructor (collection: map<Id, Event>)
      ensures Valid()
      ensures events == collection
      ensures form == EmptyEventForm && editing.None? && !showForm && deleteDialog.None?
    {
      events := collection;
      form := EmptyEventForm;
      editing := None;
      showForm := false;
      deleteDialog := None;
      issued := collection.Keys;
    }

    /** `resetForm`: empty title and description, status 'upcoming', nothing being edited, form hidden. */
    method ResetForm()
      modifies this`form, this`editing, this`showForm
      ensures form == EmptyEventForm && editing.None? && !showForm
    {
      form := EmptyEventForm;
      editing := None;
      showForm := false;
    }

    /** `handleEdit`: load a listed event into the form and remember its id. */
    method BeginEdit(id: Id)
      requires id in events
      modifies this`form, this`editing, this`showForm
      ensures editing == Some(id) && form == events[id] && showForm
    {
      editing := Some(id);
      form := events[id];
      showForm := true;
    }

    /** The delete button of a listed event opens the confirmation dialog for it. */
    method AskDelete(id: Id)
      modifies this`deleteDialog
      ensures deleteDialog == Some(id)
    {
      deleteDialog := Some(id);
    }

    /**
     * `handleSubmit`: refuse a form with an empty title or description;
     * otherwise overwrite the event being edited, or add one new event under
     * `newId` (the id the database generates), and reset the form. A refused
     * write (`writeFails`, or the edited event no longer exists) keeps
     * everything as it was.
     */
    method Submit(newId: Id, writeFails: bool) returns (outcome: Submission<FormError>)
      requires Valid() && newId !in issued
      modifies this
      ensures Valid()
      ensures outcome.Rejected? <==> !EventFormComplete(old(form))
      ensures outcome.WriteFailed? <==>
                EventFormComplete(old(form)) && (writeFails || (old(editing).Some? && old(editing).value !in old(events)))
      ensures outcome.Rejected? || outcome.WriteFailed? ==> unchanged(this)
      ensures outcome.Updated? ==>
                && old(editing) == Some(outcome.id) && outcome.id in old(events)
                && events == old(events)[outcome.id := old(form)]
      ensures outcome.Added? ==>
                && old(editing).None? && outcome.id == newId && newId !in old(events)
                && events == old(events)[newId := old(form)]
                && |events| == |old(events)| + 1
      ensures outcome.Added? || outcome.Updated? ==>
                form == EmptyEventForm && editing.None? && !showForm && deleteDialog == old(deleteDialog)
    {
      if !EventFormComplete(form) {
        return Rejected(MissingRequiredFields);
      }
      if editing.Some? {
        var id := editing.value;
        if writeFails || id !in events {
          return WriteFailed;
        }
        events := events[id := form];
        ResetForm();
        outcome := Updated(id);
      } else {
        if writeFails {
          return WriteFailed;
        }
        events := events[newId := form];
        issued := issued + {newId};
        ResetForm();
        outcome := Added(newId);
      }
    }

    /**
     * `handleDelete`: delete the event and close the dialog. Deleting an id
     * that is not stored succeeds and changes nothing in the collection; a
     * refused delete keeps everything, the dialog included.
     */
    method Delete(id: Id, writeFails: bool) returns (deleted: bool)
      requires Valid()
      modifies this`events, this`deleteDialog
      ensures Valid()
      ensures deleted <==> !writeFails
      ensures deleted ==> events == old(events) - {id} && deleteDialog.None?
      ensures deleted ==> forall k :: k in old(events) && k != id ==> k in events && events[k] == old(events)[k]
      ensures !deleted ==> events == old(events) && deleteDialog == old(deleteDialog)
    {
      if writeFails {
        return false;
      }
      events := events - {id};
      deleteDialog := None;
      deleted := true;
    }

    /**
     * `handleStatusToggle`: write the other status into the one listed
     * event; its title and description and every other event stay as they
     * were. Nothing changes when the write is refused.
     */
    method ToggleStatus(id: Id, writeFails: bool) returns (toggled: bool)
      requires Valid()
      modifies this`events
      ensures Valid()
      ensures toggled <==> id in old(events) && !writeFails
      ensures toggled ==> events == old(events)[id := WithStatusToggled(old(events)[id])]
      ensures !toggled ==> events == old(events)
    {
      if writeFails || id !in events {
        return false;
      }
      events := events[id := WithStatusToggled(events[id])];
      toggled := true;
    }
  }
}
