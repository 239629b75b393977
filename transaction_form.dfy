/**
 * The transaction form of the admin panel (src/components/Admin/TransactionManager.tsx):
 * its validation chain, the document it builds, and how an existing
 * transaction is loaded back into it for editing.
 */
module TransactionForms {
  import opened Common
  import opened Treasury

  /**
   * The amount field: empty, or text that parses to a number (in paise).
   * Text that does not parse to a number is not modelled.
   */
  datatype AmountInput = Blank | Entered(value: int)

  datatype TransactionForm = TransactionForm(
    kind: TxType,
    amount: AmountInput,
    description: string,
    receivedFrom: string,
    expenseCategory: string,
    relatedEvent: string)

  /** The form after `resetForm` (the date field is not modelled). */
  const EmptyForm: TransactionForm := TransactionForm(Income, Blank, "", "", "", "")

  /** The four validation messages, in the order they are checked. */
  datatype ValidationError =
    | InvalidAmount           // 'Please enter a valid amount'
    | MissingDescription      // 'Please enter a description'
    | MissingReceivedFrom     // 'Please specify who the income was received from'
    | MissingExpenseCategory  // 'Please specify the expense category'

  /** The amount is present and positive. */
  predicate AmountOk(f: TransactionForm) {
    f.amount.Entered? && f.amount.value > 0
  }

  /** Every required field is filled in. */
  predicate Complete(f: TransactionForm) {
    && AmountOk(f)
    && f.description != ""
    && (f.kind == Income ==> f.receivedFrom != "")
    && (f.kind == Expense ==> f.expenseCategory != "")
  }

  /**
   * The validation chain: the first failing check is reported, and a form
   * passes exactly when it is complete.
   */
  function Validate(f: TransactionForm): (r: Option<ValidationError>)
    ensures r.None? <==> Complete(f)
    ensures r == Some(InvalidAmount) <==> !AmountOk(f)
    ensures r == Some(MissingDescription) <==> AmountOk(f) && f.description == ""
    ensures r == Some(MissingReceivedFrom) <==>
              AmountOk(f) && f.description != "" && f.kind == Income && f.receivedFrom == ""
    ensures r == Some(MissingExpenseCategory) <==>
              AmountOk(f) && f.description != "" && f.kind == Expense && f.expenseCategory == ""
  {
    if f.amount.Blank? || f.amount.value <= 0 then Some(InvalidAmount)
    else if f.description == "" then Some(MissingDescription)
    else if f.kind == Income && f.receivedFrom == "" then Some(MissingReceivedFrom)
    else if f.kind == Expense && f.expenseCategory == "" then Some(MissingExpenseCategory)
    else None
  }

  /**
   * The document written for a submitted form: only the detail field that
   * matches the type, and a null related event when none was chosen.
   */
  function BuildRecord(f: TransactionForm): (t: Transaction)
    requires f.amount.Entered?
    ensures t.kind == f.kind && t.amount == f.amount.value && t.description == f.description
    ensures t.receivedFrom.Some? <==> f.kind == Income
    ensures t.expenseCategory.Some? <==> f.kind == Expense
    ensures t.relatedEvent.None? <==> f.relatedEvent == ""
    ensures t.receivedFrom.Some? ==> t.receivedFrom.value == f.receivedFrom
    ensures t.expenseCategory.Some? ==> t.expenseCategory.value == f.expenseCategory
    ensures t.relatedEvent.Some? ==> t.relatedEvent.value == f.relatedEvent
  {
    Transaction(
      f.kind,
      f.amount.value,
      f.description,
      if f.kind == Income then Some(f.receivedFrom) else None,
      if f.kind == Expense then Some(f.expenseCategory) else None,
      if f.relatedEvent == "" then None else Some(f.relatedEvent))
  }

  /** A form that passes validation yields a well-formed document. */
  lemma ValidFormBuildsWellFormed(f: TransactionForm)
    requires Validate(f).None?
    ensures WellFormed(BuildRecord(f))
  {
  }

  /**
   * `handleEdit`: the form filled from a stored transaction (absent fields
   * read as ''). The form of a well-formed transaction is complete.
   */
  function FormOf(t: Transaction): (f: TransactionForm)
    ensures f.kind == t.kind && f.amount == Entered(t.amount)
    ensures WellFormed(t) ==> Complete(f)
  {
    TransactionForm(
      t.kind,
      Entered(t.amount),
      t.description,
      t.receivedFrom.GetOr(""),
      t.expenseCategory.GetOr(""),
      t.relatedEvent.GetOr(""))
  }

  /**
   * Loading a well-formed transaction into the form and submitting it
   * unchanged passes validation and writes back the same document.
   */
  lemma EditRoundTrip(t: Transaction)
    requires WellFormed(t)
    ensures Validate(FormOf(t)).None?
    ensures BuildRecord(FormOf(t)) == t
  {
  }
}
