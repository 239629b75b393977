/**
 * The announcement manager of the admin panel
 * (src/components/Admin/AnnouncementManager.tsx) as a stateful object: the
 * `announcements` collection and the component state (form, edit target,
 * form visibility, delete dialog) its handlers update.
 */
module AnnouncementAdmin {
  import opened Common

  /** An announcement document (its date and creation time are not modelled); the form holds the same fields. */
  datatype Announcement = Announcement(title: string, content: string)

  /** The form after `resetForm`. */
  const EmptyAnnouncementForm: Announcement := Announcement("", "")

  /** The announcement form passes validation: title and content are both filled in. */
  predicate AnnouncementFormComplete(f: Announcement) {
    f.title != "" && f.content != ""
  }

  class AnnouncementManager {
    var announcements: map<Id, Announcement>
    var form: Announcement
    var editing: Option<Id>   // the id of the announcement being edited, if any
    var showForm: bool
    var deleteDialog: Option<Id>
    /** Every id the database has ever handed out for this collection. */
    ghost var issued: set<Id>

    ghost predicate Valid()
      reads this
    {
      announcements.Keys <= issued
    }

    /** The component as mounted over the current collection. */
    constructor (collection: map<Id, Announcement>)
      ensures Valid()
      ensures announcements == collection
      ensures form == EmptyAnnouncementForm && editing.None? && !showForm && deleteDialog.None?
    {
      announcements := collection;
      form := EmptyAnnouncementForm;
      editing := None;
      showForm := false;
      deleteDialog := None;
      issued := collection.Keys;
    }

    /** `resetForm`: empty title and content, nothing being edited, form hidden. */
    method ResetForm()
      modifies this`form, this`editing, this`showForm
      ensures form == EmptyAnnouncementForm && editing.None? && !showForm
    {
      form := EmptyAnnouncementForm;
      editing := None;
      showForm := false;
    }

    /** `handleEdit`: load a listed announcement into the form and remember its id. */
    method BeginEdit(id: Id)
      requires id in announcements
      modifies this`form, this`editing, this`showForm
      ensures editing == Some(id) && form == announcements[id] && showForm
    {
      editing := Some(id);
      form := announcements[id];
      showForm := true;
    }

    /** The delete button of a listed announcement opens the confirmation dialog for it. */
    method AskDelete(id: Id)
      modifies this`deleteDialog
      ensures deleteDialog == Some(id)
    {
      deleteDialog := Some(id);
    }

    /**
     * `handleSubmit`: refuse a form with an empty title or content;
     * otherwise overwrite the announcement being edited, or add one new
     * announcement under `newId` (the id the database generates), and reset
     * the form. A refused write (`writeFails`, or the edited announcement no
     * longer exists) keeps everything as it was.
     */
    method Submit(newId: Id, writeFails: bool) returns (outcome: Submission<FormError>)
      requires Valid() && newId !in issued
      modifies this
      ensures Valid()
      ensures outcome.Rejected? <==> !AnnouncementFormComplete(old(form))
      ensures outcome.WriteFailed? <==>
                AnnouncementFormComplete(old(form))
                && (writeFails || (old(editing).Some? && old(editing).value !in old(announcements)))
      ensures outcome.Rejected? || outcome.WriteFailed? ==> unchanged(this)
      ensures outcome.Updated? ==>
                && old(editing) == Some(outcome.id) && outcome.id in old(announcements)
                && announcements == old(announcements)[outcome.id := old(form)]
      ensures outcome.Added? ==>
                && old(editing).None? && outcome.id == newId && newId !in old(announcements)
                && announcements == old(announcements)[newId := old(form)]
                && |announcements| == |old(announcements)| + 1
      ensures outcome.Added? || outcome.Updated? ==>
                form == EmptyAnnouncementForm && editing.None? && !showForm && deleteDialog == old(deleteDialog)
    {
      if !AnnouncementFormComplete(form) {
        return Rejected(MissingRequiredFields);
      }
      if editing.Some? {
        var id := editing.value;
        if writeFails || id !in announcements {
          return WriteFailed;
        }
        announcements := announcements[id := form];
        ResetForm();
        outcome := Updated(id);
      } else {
        if writeFails {
          return WriteFailed;
        }
        announcements := announcements[newId := form];
        issued := issued + {newId};
        ResetForm();
        outcome := Added(newId);
      }
    }

    /**
     * `handleDelete`: delete the announcement and close the dialog; every
     * other announcement is unchanged. A refused delete keeps everything,
     * the dialog included.
     */
    method Delete(id: Id, writeFails: bool) returns (deleted: bool)
      requires Valid()
      modifies this`announcements, this`deleteDialog
      ensures Valid()
      ensures deleted <==> !writeFails
      ensures deleted ==> announcements == old(announcements) - {id} && deleteDialog.None?
      ensures deleted ==> forall k :: k in old(announcements) && k != id ==>
                            k in announcements && announcements[k] == old(announcements)[k]
      ensures !deleted ==> announcements == old(announcements) && deleteDialog == old(deleteDialog)
    {
      if writeFails {
        return false;
      }
      announcements := announcements - {id};
      deleteDialog := None;
      deleted := true;
    }
  }
}
