/**
 * The treasury ledger (src/components/Admin/TransactionManager.tsx):
 * the `transactions` collection, the `treasury/current` balance record,
 * and the signed balance deltas that keep the stored balance equal to
 * the signed sum of the stored transactions without ever recomputing it.
 * Amounts are whole paise.
 */
module Treasury {
  import opened Common

  /** A stored transaction document (its date and creation time are not modelled). */
  datatype Transaction = Transaction(
    kind: TxType,
    amount: int,
    description: string,
    receivedFrom: Option<string>,     // present only on income
    expenseCategory: Option<string>,  // present only on expense
    relatedEvent: Option<string>)     // null when no event was chosen

  /** The record the public page and the admin form expect of every stored transaction. */
  predicate WellFormed(t: Transaction) {
    && t.amount > 0
    && t.description != ""
    && (t.receivedFrom.Some? <==> t.kind == Income)
    && (t.expenseCategory.Some? <==> t.kind == Expense)
    && t.receivedFrom != Some("")
    && t.expenseCategory != Some("")
    && t.relatedEvent != Some("")
  }

  /**
   * What the public page and the admin form read of a stored transaction: a
   * positive amount, a description, and a non-empty detail field of its own
   * type. Unlike WellFormed, a detail field of the other type may linger.
   */
  predicate Displayable(t: Transaction) {
    && t.amount > 0
    && t.description != ""
    && (t.kind == Income ==> t.receivedFrom.Some? && t.receivedFrom != Some(""))
    && (t.kind == Expense ==> t.expenseCategory.Some? && t.expenseCategory != Some(""))
    && t.relatedEvent != Some("")
  }

  /** The `treasury/current` document: absent, or present with a possibly missing `balance` field. */
  datatype TreasuryDoc = Missing | Stored(balance: Option<int>)

  /** The balance a reader sees: `balance || 0`, and 0 while the record does not exist. */
  function ReadBalance(doc: TreasuryDoc): (b: int)
    ensures doc.Missing? || doc.balance.None? ==> b == 0
    ensures doc.Stored? && doc.balance.Some? ==> b == doc.balance.value
  {
    match doc
    case Stored(Some(b)) => b
    case _ => 0
  }

  /** What `updateTreasuryBalance(change)` leaves in the record. */
  function WithChange(doc: TreasuryDoc, change: int): (r: TreasuryDoc)
    ensures r.Stored? && r.balance == Some(ReadBalance(doc) + change)
    ensures doc.Missing? ==> r == Stored(Some(change))
  {
    if doc.Stored? then Stored(Some(ReadBalance(doc) + change)) else Stored(Some(change))
  }

  /** The contribution of a transaction to the balance: + for income, - for expense. */
  function Signed(kind: TxType, amount: int): int {
    if kind == Income then amount else -amount
  }

  /** The adjustment applied when an existing transaction is edited. */
  function EditDelta(oldKind: TxType, oldAmount: int, newKind: TxType, newAmount: int): (d: int)
    ensures d == Signed(newKind, newAmount) - Signed(oldKind, oldAmount)
  {
    if newKind == Income then newAmount - (if oldKind == Income then oldAmount else -oldAmount)
    else -newAmount - (if oldKind == Income then oldAmount else -oldAmount)
  }

  /** The adjustment applied when a transaction is deleted: it undoes the transaction's contribution. */
  function DeleteDelta(kind: TxType, amount: int): (d: int)
    ensures d + Signed(kind, amount) == 0
  {
    if kind == Income then -amount else amount
  }

  /** A deterministic choice of a key, so that SignedSum is a function. */
  ghost function PickKey(m: map<Id, Transaction>): (k: Id)
    requires m != map[]
    ensures k in m
  {
    var k :| k in m; k
  }

  /** The signed sum of all stored transactions: income positive, expense negative. */
  ghost function SignedSum(m: map<Id, Transaction>): int
    decreases |m|
  {
    if m == map[] then 0
    else
      var k := PickKey(m);
      assert m.Keys - {k} == (m - {k}).Keys;
      Signed(m[k].kind, m[k].amount) + SignedSum(m - {k})
  }

  /** The sum can be split at any stored key, not just the one SignedSum picks. */
  lemma {:induction false} SignedSumRemove(m: map<Id, Transaction>, k: Id)
    requires k in m
    ensures SignedSum(m) == Signed(m[k].kind, m[k].amount) + SignedSum(m - {k})
    decreases |m|
  {
    var j := PickKey(m);
    if j != k {
      assert m.Keys - {j} == (m - {j}).Keys;
      assert m.Keys - {k} == (m - {k}).Keys;
      SignedSumRemove(m - {j}, k);
      SignedSumRemove(m - {k}, j);
      assert (m - {j}) - {k} == (m - {k}) - {j};
    }
  }

  /** Storing a new transaction adds its signed amount to the sum. */
  lemma SignedSumInsert(m: map<Id, Transaction>, k: Id, t: Transaction)
    requires k !in m
    ensures SignedSum(m[k := t]) == SignedSum(m) + Signed(t.kind, t.amount)
  {
    SignedSumRemove(m[k := t], k);
    assert m[k := t] - {k} == m;
  }

  /** Overwriting a stored transaction replaces its signed amount in the sum. */
  lemma SignedSumReplace(m: map<Id, Transaction>, k: Id, t: Transaction)
    requires k in m
    ensures SignedSum(m[k := t]) == SignedSum(m) - Signed(m[k].kind, m[k].amount) + Signed(t.kind, t.amount)
  {
    SignedSumRemove(m, k);
    SignedSumRemove(m[k := t], k);
    assert m[k := t] - {k} == m - {k};
  }

  /** The two records the reconciler keeps in step. */
  datatype Ledger = Ledger(transactions: map<Id, Transaction>, treasury: TreasuryDoc)

  /** The stored balance equals the signed sum of the stored transactions. */
  ghost predicate Reconciled(l: Ledger) {
    ReadBalance(l.treasury) == SignedSum(l.transactions)
  }

  /**
   * A successful create: the new document is added under the id the database
   * generated, then the balance moves by +amount for income, -amount for expense.
   */
  function Record(l: Ledger, id: Id, t: Transaction): (r: Ledger)
    requires id !in l.transactions
    ensures r.transactions == l.transactions[id := t]
    ensures t.kind == Income ==> ReadBalance(r.treasury) == ReadBalance(l.treasury) + t.amount
    ensures t.kind == Expense ==> ReadBalance(r.treasury) == ReadBalance(l.treasury) - t.amount
  {
    Ledger(l.transactions[id := t], WithChange(l.treasury, Signed(t.kind, t.amount)))
  }

  /**
   * A successful edit as the program performs it: `updateDoc` merges the
   * form's record into the stored document (MergeUpdate), and the balance
   * moves by the new signed amount minus the old one. Editing a document that
   * no longer exists fails at the write, so nothing changes.
   */
  function MergeEdit(l: Ledger, id: Id, t: Transaction): (r: Ledger)
    ensures id in l.transactions ==> r.transactions == l.transactions[id := MergeUpdate(l.transactions[id], t)]
    ensures id in l.transactions ==>
      ReadBalance(r.treasury) == ReadBalance(l.treasury)
        - Signed(l.transactions[id].kind, l.transactions[id].amount) + Signed(t.kind, t.amount)
    ensures id !in l.transactions ==> r == l
  {
    if id !in l.transactions then l
    else
      var prev := l.transactions[id];
      Ledger(l.transactions[id := MergeUpdate(prev, t)],
             WithChange(l.treasury, EditDelta(prev.kind, prev.amount, t.kind, t.amount)))
  }

  /**
   * The corrected edit: the document becomes exactly the form's record (the
   * detail field of the other type is removed), and the balance moves as in
   * MergeEdit. A missing document changes nothing.
   */
  function Amend(l: Ledger, id: Id, t: Transaction): (r: Ledger)
    ensures id in l.transactions ==> r.transactions == l.transactions[id := t]
    ensures id in l.transactions ==>
      ReadBalance(r.treasury) == ReadBalance(l.treasury)
        - Signed(l.transactions[id].kind, l.transactions[id].amount) + Signed(t.kind, t.amount)
    ensures id !in l.transactions ==> r == l
  {
    if id !in l.transactions then l
    else
      var prev := l.transactions[id];
      Ledger(l.transactions[id := t], WithChange(l.treasury, EditDelta(prev.kind, prev.amount, t.kind, t.amount)))
  }

  /**
   * A delete: the document is removed and its contribution is taken back out
   * of the balance. An id that is not listed writes nothing.
   */
  function Remove(l: Ledger, id: Id): (r: Ledger)
    ensures r.transactions == l.transactions - {id}
    ensures id in l.transactions ==>
      ReadBalance(r.treasury) == ReadBalance(l.treasury) - Signed(l.transactions[id].kind, l.transactions[id].amount)
    ensures id !in l.transactions ==> r == l
  {
    if id !in l.transactions then l
    else
      var t := l.transactions[id];
      Ledger(l.transactions - {id}, WithChange(l.treasury, DeleteDelta(t.kind, t.amount)))
  }

  lemma RecordReconciles(l: Ledger, id: Id, t: Transaction)
    requires Reconciled(l) && id !in l.transactions
    ensures Reconciled(Record(l, id, t))
  {
    SignedSumInsert(l.transactions, id, t);
  }

  lemma MergeEditReconciles(l: Ledger, id: Id, t: Transaction)
    requires Reconciled(l)
    ensures Reconciled(MergeEdit(l, id, t))
  {
    if id in l.transactions {
      SignedSumReplace(l.transactions, id, MergeUpdate(l.transactions[id], t));
    }
  }

  lemma AmendReconciles(l: Ledger, id: Id, t: Transaction)
    requires Reconciled(l)
    ensures Reconciled(Amend(l, id, t))
  {
    if id in l.transactions {
      SignedSumReplace(l.transactions, id, t);
    }
  }

  lemma RemoveReconciles(l: Ledger, id: Id)
    requires Reconciled(l)
    ensures Reconciled(Remove(l, id))
  {
    if id in l.transactions {
      SignedSumRemove(l.transactions, id);
    }
  }

  /**
   * Creating a transaction and then deleting it restores the transactions and
   * the balance a reader sees (a record that was absent is left holding 0).
   */
  lemma RecordThenRemove(l: Ledger, id: Id, t: Transaction)
    requires id !in l.transactions
    ensures Remove(Record(l, id, t), id).transactions == l.transactions
    ensures ReadBalance(Remove(Record(l, id, t), id).treasury) == ReadBalance(l.treasury)
  {
    assert l.transactions[id := t] - {id} == l.transactions;
  }

  /** Editing income 100 into expense 40 moves the balance by exactly -140. */
  lemma EditExample(l: Ledger, id: Id, t: Transaction)
    requires id in l.transactions
    requires l.transactions[id].kind == Income && l.transactions[id].amount == 100
    requires t.kind == Expense && t.amount == 40
    ensures ReadBalance(MergeEdit(l, id, t).treasury) == ReadBalance(l.treasury) - 140
  {
  }

  /** One successful serial ledger operation. */
  datatype Op = Create(id: Id, record: Transaction) | Edit(id: Id, record: Transaction) | Delete(id: Id)

  /** A create always gets an id the collection does not hold yet. */
  predicate Applicable(l: Ledger, op: Op) {
    op.Create? ==> op.id !in l.transactions
  }

  function Step(l: Ledger, op: Op): Ledger
    requires Applicable(l, op)
  {
    match op
    case Create(id, t) => Record(l, id, t)
    case Edit(id, t) => MergeEdit(l, id, t)
    case Delete(id) => Remove(l, id)
  }

  /** Every operation of the sequence is applicable in the state the previous ones leave. */
  predicate Admissible(l: Ledger, ops: seq<Op>)
    decreases |ops|
  {
    ops == [] || (Applicable(l, ops[0]) && Admissible(Step(l, ops[0]), ops[1..]))
  }

  function Replay(l: Ledger, ops: seq<Op>): Ledger
    requires Admissible(l, ops)
    decreases |ops|
  {
    if ops == [] then l else Replay(Step(l, ops[0]), ops[1..])
  }

  /** The ledger invariant: any serial sequence of creates, edits and deletes keeps the balance reconciled. */
  lemma {:induction false} ReplayReconciles(l: Ledger, ops: seq<Op>)
    requires Reconciled(l) && Admissible(l, ops)
    ensures Reconciled(Replay(l, ops))
    decreases |ops|
  {
    if ops != [] {
      match ops[0] {
        case Create(id, t) => RecordReconciles(l, id, t);
        case Edit(id, t) => MergeEditReconciles(l, id, t);
        case Delete(id) => RemoveReconciles(l, id);
      }
      ReplayReconciles(Step(l, ops[0]), ops[1..]);
    }
  }

  /** Every stored transaction is well formed. */
  ghost predicate AllWellFormed(l: Ledger) {
    forall id :: id in l.transactions ==> WellFormed(l.transactions[id])
  }

  /** Every stored transaction can be displayed. */
  ghost predicate AllDisplayable(l: Ledger) {
    forall id :: id in l.transactions ==> Displayable(l.transactions[id])
  }

  /**
   * Creates, edits (as the program merges them) and deletes with records
   * that pass validation keep every stored record displayable.
   */
  lemma StepKeepsDisplayable(l: Ledger, op: Op)
    requires AllDisplayable(l) && Applicable(l, op)
    requires !op.Delete? ==> WellFormed(op.record)
    ensures AllDisplayable(Step(l, op))
  {
  }

  /** Is `op` an edit that changes the type of a stored transaction? */
  predicate ChangesType(l: Ledger, op: Op) {
    op.Edit? && op.id in l.transactions && op.record.kind != l.transactions[op.id].kind
  }

  /**
   * With the merging edit, a step keeps every stored record well formed
   * exactly when it is not an edit that changes a transaction's type.
   */
  lemma StepKeepsWellFormed(l: Ledger, op: Op)
    requires AllWellFormed(l) && Applicable(l, op)
    requires !op.Delete? ==> WellFormed(op.record)
    ensures AllWellFormed(Step(l, op)) <==> !ChangesType(l, op)
  {
    if ChangesType(l, op) {
      MergeWellFormedIff(l.transactions[op.id], op.record);
      assert !WellFormed(Step(l, op).transactions[op.id]);
    }
  }

  /**
   * `updateDoc` as the source calls it: a field merge. The payload carries
   * `receivedFrom` only for income and `expenseCategory` only for expense, so
   * the other one keeps whatever the stored document held.
   */
  function MergeUpdate(stored: Transaction, patch: Transaction): (r: Transaction)
    ensures r.kind == patch.kind && r.amount == patch.amount
    ensures r.description == patch.description && r.relatedEvent == patch.relatedEvent
    ensures patch.receivedFrom.None? ==> r.receivedFrom == stored.receivedFrom
    ensures patch.expenseCategory.None? ==> r.expenseCategory == stored.expenseCategory
  {
    Transaction(
      patch.kind, patch.amount, patch.description,
      if patch.receivedFrom.Some? then patch.receivedFrom else stored.receivedFrom,
      if patch.expenseCategory.Some? then patch.expenseCategory else stored.expenseCategory,
      patch.relatedEvent)
  }

  /**
   * Editing a well-formed income into a well-formed expense through the merge
   * leaves a stored expense that still carries `receivedFrom`.
   */
  lemma MergeLeavesStaleDetail()
    ensures var stored := Transaction(Income, 10000, "Membership dues", Some("Asha"), None, None);
            var patch := Transaction(Expense, 4000, "Snacks", None, Some("Food"), None);
            WellFormed(stored) && WellFormed(patch)
            && MergeUpdate(stored, patch).kind == Expense
            && MergeUpdate(stored, patch).receivedFrom == Some("Asha")
            && !WellFormed(MergeUpdate(stored, patch))
  {
  }

  /**
   * A merged record is well formed exactly when the edit keeps the type: a
   * type change leaves the stored detail field of the old type behind.
   */
  lemma MergeWellFormedIff(stored: Transaction, patch: Transaction)
    requires WellFormed(stored) && WellFormed(patch)
    ensures WellFormed(MergeUpdate(stored, patch)) <==> stored.kind == patch.kind
  {
  }

  /**
   * The merging edit and the corrected overwrite leave the same balance
   * record and the same signed sum: only kind and amount enter the sum.
   */
  lemma MergeAgreesOnBalance(l: Ledger, id: Id, t: Transaction)
    ensures MergeEdit(l, id, t).treasury == Amend(l, id, t).treasury
    ensures SignedSum(MergeEdit(l, id, t).transactions) == SignedSum(Amend(l, id, t).transactions)
  {
    if id in l.transactions {
      SignedSumReplace(l.transactions, id, t);
      SignedSumReplace(l.transactions, id, MergeUpdate(l.transactions[id], t));
    }
  }

  /** With the corrected overwrite, an edit keeps every stored record well formed. */
  lemma AmendKeepsWellFormed(l: Ledger, id: Id, t: Transaction)
    requires AllWellFormed(l) && WellFormed(t)
    ensures AllWellFormed(Amend(l, id, t))
  {
  }
}
