/** Types shared by every part of the treasury site model. */
module Common {

  /** An optional value: a document field that may be absent, or a nullable reference. */
  datatype Option<T> = None | Some(value: T) {
    function GetOr(default: T): T {
      match this
      case Some(v) => v
      case None => default
    }
  }

  /** The outcome of a computation that may fail with an error value. */
  datatype Result<T, E> = Success(value: T) | Failure(error: E)

  /** Opaque identifier of a document in a hosted collection. */
  type Id = string

  /** The two kinds of treasury transaction ('income' | 'expense'). */
  datatype TxType = Income | Expense

  /** What a form submission in one of the admin managers ended with. */
  datatype Submission<E> =
    | Rejected(reason: E)   // validation failed; nothing was written
    | WriteFailed           // the database refused the document write; nothing changed
    | Added(id: Id)         // a new document was created under `id`
    | Updated(id: Id)       // the form's fields were written into the existing document `id`

  /** The one validation message of the event and announcement forms: 'Please fill in all required fields'. */
  datatype FormError = MissingRequiredFields
}
