/**
 * The transaction manager of the admin panel
 * (src/components/Admin/TransactionManager.tsx) as a stateful object: the
 * `transactions` collection and the `treasury/current` record it writes,
 * and the component state (form, edit target, form visibility, delete
 * dialog) its handlers update. Each handler is proved against the pure
 * ledger operations of module Treasury, so it keeps the balance reconciled.
 */
module TransactionAdmin {
  import opened Common
  import opened Treasury
  import opened TransactionForms

  /** The transaction being edited, as cached when its Edit button was pressed. */
  datatype EditTarget = EditTarget(id: Id, cached: Transaction)

  /** What a confirmed delete ended with. */
  datatype DeleteOutcome =
    | Deleted       // the document was removed and the balance adjusted
    | NotListed     // the id is not among the listed transactions; nothing was written
    | DeleteFailed  // the database refused the delete; nothing changed

  class TransactionManager {
    var transactions: map<Id, Transaction>
    var treasury: TreasuryDoc
    var form: TransactionForm
    var editing: Option<EditTarget>
    var showForm: bool
    var deleteDialog: Option<Id>  // open for this id, or closed
    /** Every id the database has ever handed out for this collection. */
    ghost var issued: set<Id>

    /**
     * Every stored id was issued by the database, and the cached copy of
     * the transaction being edited is the stored one while it still exists.
     */
    ghost predicate Valid()
      reads this
    {
      && transactions.Keys <= issued
      && (editing.Some? ==>
            && editing.value.id in issued
            && (editing.value.id in transactions ==> transactions[editing.value.id] == editing.value.cached))
    }

    /** The database side of the component: the collection and the balance record. */
    function Books(): Ledger
      reads this
    {
      Ledger(transactions, treasury)
    }

    /** The component as mounted over the current collection and balance record. */
    constructor (collection: map<Id, Transaction>, record: TreasuryDoc)
      ensures Valid()
      ensures transactions == collection && treasury == record
      ensures form == EmptyForm && editing.None? && !showForm && deleteDialog.None?
    {
      transactions := collection;
      treasury := record;
      form := EmptyForm;
      editing := None;
      showForm := false;
      deleteDialog := None;
      issued := collection.Keys;
    }

    /** `resetForm`: empty form, nothing being edited, form hidden. */
    method ResetForm()
      modifies this`form, this`editing, this`showForm
      ensures form == EmptyForm && editing.None? && !showForm
    {
      form := EmptyForm;
      editing := None;
      showForm := false;
    }

    /** `handleEdit`: load a listed transaction into the form and remember it. */
    method BeginEdit(id: Id)
      requires Valid() && id in transactions
      modifies this`form, this`editing, this`showForm
      ensures Valid()
      ensures editing == Some(EditTarget(id, transactions[id]))
      ensures form == FormOf(transactions[id]) && showForm
    {
      var t := transactions[id];
      editing := Some(EditTarget(id, t));
      form := FormOf(t);
      showForm := true;
    }

    /** The delete button of a listed row opens the confirmation dialog for it. */
    method AskDelete(id: Id)
      modifies this`deleteDialog
      ensures deleteDialog == Some(id)
    {
      deleteDialog := Some(id);
    }

    /**
     * `updateTreasuryBalance`: read the record, then either write back the
     * stored balance (a missing field reads as 0) plus the change, or create
     * the record holding exactly the change.
     */
    method UpdateTreasuryBalance(change: int)
      modifies this`treasury
      ensures treasury == WithChange(old(treasury), change)
      ensures ReadBalance(treasury) == ReadBalance(old(treasury)) + change
    {
      if treasury.Stored? {
        var current := treasury.balance.GetOr(0);
        treasury := Stored(Some(current + change));
      } else {
        treasury := Stored(Some(change));
      }
    }

    /**
     * `handleSubmit`: validate; then merge the form's record into the
     * document being edited (`updateDoc`, see MergeEdit) or add a new one
     * under `newId` (the id the database generates), and only after
     * that document write succeeded push the signed delta into the balance;
     * on success reset the form. `writeFails` says whether the database
     * refuses the document write; updating a document that no longer exists
     * fails as well.
     */
    method Submit(newId: Id, writeFails: bool) returns (outcome: Submission<ValidationError>)
      requires Valid()
      requires newId !in issued
      modifies this
      ensures Valid()
      ensures outcome.Rejected? <==> Validate(old(form)).Some?
      ensures outcome.Rejected? ==> Validate(old(form)) == Some(outcome.reason)
      ensures outcome.WriteFailed? <==>
                Validate(old(form)).None?
                && (writeFails || (old(editing).Some? && old(editing).value.id !in old(transactions)))
      ensures outcome.Rejected? || outcome.WriteFailed? ==> unchanged(this)
      ensures outcome.Added? ==>
                && Validate(old(form)).None? && old(editing).None? && outcome.id == newId
                && Books() == Record(old(Books()), newId, BuildRecord(old(form)))
      ensures outcome.Updated? ==>
                && Validate(old(form)).None? && old(editing).Some? && outcome.id == old(editing).value.id
                && Books() == MergeEdit(old(Books()), outcome.id, BuildRecord(old(form)))
      ensures outcome.Added? || outcome.Updated? ==>
                form == EmptyForm && editing.None? && !showForm && deleteDialog == old(deleteDialog)
      ensures old(Reconciled(Books())) ==> Reconciled(Books())
    {
      var error := Validate(form);
      if error.Some? {
        return Rejected(error.value);
      }
      var record := BuildRecord(form);
      ghost var before := Books();
      if editing.Some? {
        var target := editing.value;
        var delta := EditDelta(target.cached.kind, target.cached.amount, record.kind, record.amount);
        if writeFails || target.id !in transactions {
          return WriteFailed;
        }
        transactions := transactions[target.id := MergeUpdate(transactions[target.id], record)];
        UpdateTreasuryBalance(delta);
        ResetForm();
        if Reconciled(before) {
          MergeEditReconciles(before, target.id, record);
        }
        outcome := Updated(target.id);
      } else {
        if writeFails {
          return WriteFailed;
        }
        transactions := transactions[newId := record];
        issued := issued + {newId};
        UpdateTreasuryBalance(Signed(record.kind, record.amount));
        ResetForm();
        if Reconciled(before) {
          RecordReconciles(before, newId, record);
        }
        outcome := Added(newId);
      }
    }

    /**
     * `handleDelete`: look the id up among the listed transactions; if it is
     * there, delete the document and only then take its signed amount back
     * out of the balance. The dialog closes unless the delete failed.
     */
    method Delete(id: Id, writeFails: bool) returns (outcome: DeleteOutcome)
      requires Valid()
      modifies this`transactions, this`treasury, this`deleteDialog
      ensures Valid()
      ensures outcome.NotListed? <==> id !in old(transactions)
      ensures outcome.DeleteFailed? <==> id in old(transactions) && writeFails
      ensures outcome.Deleted? ==> Books() == Remove(old(Books()), id)
      ensures !outcome.Deleted? ==> Books() == old(Books())
      ensures deleteDialog == (if outcome.DeleteFailed? then old(deleteDialog) else None)
      ensures old(Reconciled(Books())) ==> Reconciled(Books())
    {
      ghost var before := Books();
      if id in transactions {
        var t := transactions[id];
        var delta := DeleteDelta(t.kind, t.amount);
        if writeFails {
          return DeleteFailed;
        }
        transactions := transactions - {id};
        UpdateTreasuryBalance(delta);
        if Reconciled(before) {
          RemoveReconciles(before, id);
        }
        outcome := Deleted;
      } else {
        outcome := NotListed;
      }
      deleteDialog := None;
    }
  }
}
