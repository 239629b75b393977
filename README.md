# org-ledger-viz: a verified model of the treasury admin logic

This project models the logic of org-ledger-viz, a club treasury website built on a hosted document database. The model covers four areas.

- **Treasury ledger.**
  - The `transactions` collection and the `treasury/current` balance record, both written by the admin transaction manager.
  - `handleSubmit` validates the form, then creates or edits a transaction and pushes a signed delta into the balance.
  - `handleDelete` removes a transaction and pushes the opposite delta.
  - `updateTreasuryBalance` is a read-modify-write that creates the record when it is absent.
  - No code ever recomputes the balance from the transactions. The model proves that the increments alone keep the stored balance equal to the signed sum of the stored transactions, across any serial sequence of creates, edits and deletes.
- **Event and announcement managers.**
  - Form validation, then routing to create or update, delete, and form reset.
  - For events, the two-state status toggle.
- **Configuration and sign-in gate.**
  - The start-up check that names every missing required setting.
  - The admin allow-list parsed from a comma-separated setting. JavaScript `split`, `trim` and `join` are modelled exactly.
  - The auth hook's `user` / `isAdmin` / `loading` state.
  - The decision `loginWithGoogle` takes on the sign-in result.
- **Pure helpers.**
  - The ongoing/upcoming split of the public events board and what the board shows.
  - The sign prefix of `formatTransactionAmount`, with `formatCurrency` left abstract.

The state-changing parts are classes whose methods are proved against pure functions. The classes are `TransactionManager`, `EventManager`, `AnnouncementManager` and `AuthSession`. The pure functions are `Record`, `MergeEdit`, `Remove`, `WithChange` and `WithStatusToggled`.

Modelling conventions:
- Amounts are whole paise (`int`).
- The database is a map from document id to document.
- A refused database write is a boolean parameter.
- The id the database generates for a new document is a parameter that was never issued before.

## Model

| member | source | states |
|---|---|---|
| JsStrings.TrimStart | src/config/firebase.ts:47 | the result is the longest suffix not starting with whitespace; everything dropped is whitespace |
| JsStrings.TrimEnd | src/config/firebase.ts:47 | the result is the longest prefix not ending with whitespace; everything dropped is whitespace |
| JsStrings.Trim | src/config/firebase.ts:47 | `trim` leaves no whitespace at either end and never lengthens |
| JsStrings.TrimIsSlice | src/config/firebase.ts:47 | the trim is a slice of the input, and only whitespace is cut from each end |
| JsStrings.TrimOfTrimmed | src/config/firebase.ts:47 | trimming a string without whitespace at its ends returns it unchanged |
| JsStrings.TrimIdempotent | src/config/firebase.ts:47 | trimming twice is trimming once |
| JsStrings.TrimSkipsLeadingWhitespace | src/config/firebase.ts:47 | a leading whitespace character does not change the trim |
| JsStrings.TrimKeepsAbsence | src/config/firebase.ts:47 | a character absent from the input is absent from its trim |
| JsStrings.Split | src/config/firebase.ts:46 | `split(',')` gives one more piece than there are separators, and no piece contains the separator |
| JsStrings.SplitWithoutSeparator | src/config/firebase.ts:46 | a string without the separator splits into itself alone |
| JsStrings.SplitAppend | src/config/firebase.ts:46 | splitting `a + sep + b` gives the pieces of `a` followed by the pieces of `b` |
| JsStrings.JoinSplit | src/config/firebase.ts:46 | joining the pieces with the separator gives back the original string |
| JsStrings.SplitJoin | src/config/firebase.ts:46 | splitting a join of separator-free pieces gives back the pieces |
| JsStrings.Join | src/config/firebase.ts:32 | `join` of no parts is the empty string, and of one part is that part |
| JsStrings.JoinEnds | src/config/firebase.ts:32 | a join starts with the first part and ends with the last |
| FirebaseConfig.Setting | src/config/firebase.ts:27 | an unset setting and an empty one both read as the empty (falsy) string; any other value is read as it is |
| FirebaseConfig.MissingFrom | src/config/firebase.ts:26-28 | the filter keeps only names whose setting is falsy, and never more names than given |
| FirebaseConfig.MissingFromMembers | src/config/firebase.ts:26-28 | a name is reported if and only if it is listed and its setting is falsy |
| FirebaseConfig.MissingFromAppend | src/config/firebase.ts:17-28 | the filter works piecewise, so missing names keep the listed order |
| FirebaseConfig.MissingEnvVars | src/config/firebase.ts:17-28 | `missingEnvVars` holds exactly the required names whose setting is falsy. The measurement id is never among them. It is empty if and only if every required setting is present |
| FirebaseConfig.MissingMessage | src/config/firebase.ts:31-34 | the error text is the fixed opening, then the missing names joined by ", " at a known position, then the advice line |
| FirebaseConfig.CleanEntries | src/config/firebase.ts:47-48 | every kept entry is non-empty and has no whitespace at its ends |
| FirebaseConfig.CleanEntriesMembers | src/config/firebase.ts:47-48 | the entries are exactly the non-empty trims of the pieces |
| FirebaseConfig.CleanEntriesAppend | src/config/firebase.ts:47-48 | trim-and-filter works piecewise, so entries keep the order of the pieces |
| FirebaseConfig.CleanEntriesAvoid | src/config/firebase.ts:47-48 | a character absent from every piece is absent from every entry |
| FirebaseConfig.CleanEntriesSkipsSpace | src/config/firebase.ts:47-48 | a space after a comma does not change the entries |
| FirebaseConfig.EmailList | src/config/firebase.ts:45-48 | at most one more entry than there are commas. Each entry is non-empty, trimmed and comma-free |
| FirebaseConfig.AdminEmails | src/config/firebase.ts:44-48 | an unset or empty setting gives an empty allow-list. Every entry is non-empty and trimmed |
| FirebaseConfig.EntriesAreOwnTrim | src/config/firebase.ts:47-48 | every allow-list entry equals its own trim and is not empty |
| FirebaseConfig.EmailListAppend | src/config/firebase.ts:44-48 | the text before a comma gives the earlier entries: order is kept |
| FirebaseConfig.EmailListCons | src/config/firebase.ts:45-48 | a clean address followed by ", " yields that address, then the entries of the rest |
| FirebaseConfig.EmailListOfJoin | src/config/firebase.ts:45-48 | round trip: a list of clean addresses written as "a, b, c" parses back to exactly that list |
| FirebaseConfig.Initialize | src/config/firebase.ts:26-35 | start-up fails if and only if a required setting is falsy. The error is the message naming the missing settings. Otherwise the allow-list is the parsed setting |
| FirebaseConfig.RequiredNamesArePlain | src/config/firebase.ts:17-24 | the required names are non-empty, trimmed and comma-free |
| FirebaseConfig.MessageListsMissing | src/config/firebase.ts:30-35 | the names in the error message, joined by ", ", parse back to exactly the missing names in order |
| Treasury.ReadBalance | src/components/Admin/TransactionManager.tsx:117 | `balance \|\| 0`: an absent record or a missing field reads as 0, and a stored balance reads as itself |
| Treasury.WithChange | src/components/Admin/TransactionManager.tsx:112-126 | an existing record ends up holding its balance (a missing field reads as 0) plus the change. An absent record is created holding exactly the change |
| Treasury.EditDelta | src/components/Admin/TransactionManager.tsx:164-169 | the nested edit expression equals signed(new) minus signed(old) |
| Treasury.DeleteDelta | src/components/Admin/TransactionManager.tsx:207 | the delete delta exactly cancels the transaction's signed amount |
| Treasury.SignedSumRemove | src/components/Admin/TransactionManager.tsx:162-209 | the signed sum of a collection splits at any stored id. Supports the reconciliation lemmas |
| Treasury.Record | src/components/Admin/TransactionManager.tsx:174-179 | a create stores the record under the new id. Income raises the balance by its amount; expense lowers it by its amount |
| Treasury.MergeEdit | src/components/Admin/TransactionManager.tsx:162-172 | the edit as the program performs it: the form's record is merged into the stored one, and the balance moves by the new signed amount minus the old. A missing document changes nothing |
| Treasury.Amend | src/components/Admin/TransactionManager.tsx:162-172 | the corrected edit from "## Findings": the record is replaced by the form's record, and the balance moves by the new signed amount minus the old. A missing document changes nothing |
| Treasury.Remove | src/components/Admin/TransactionManager.tsx:203-211 | a delete removes the record and takes its signed amount back out of the balance. An unlisted id changes nothing |
| Treasury.RecordReconciles | src/components/Admin/TransactionManager.tsx:174-179 | a create keeps balance = signed sum of the transactions |
| Treasury.MergeEditReconciles | src/components/Admin/TransactionManager.tsx:162-172 | the edit as written keeps balance = signed sum of the transactions |
| Treasury.AmendReconciles | src/components/Admin/TransactionManager.tsx:162-172 | the corrected edit keeps balance = signed sum of the transactions |
| Treasury.RemoveReconciles | src/components/Admin/TransactionManager.tsx:203-211 | a delete keeps balance = signed sum of the transactions |
| Treasury.RecordThenRemove | src/components/Admin/TransactionManager.tsx:174-209 | creating then deleting the same transaction restores the collection and the balance |
| Treasury.EditExample | src/components/Admin/TransactionManager.tsx:164-172 | editing income 100 into expense 40 moves the balance by exactly -140 |
| Treasury.ReplayReconciles | src/components/Admin/TransactionManager.tsx:162-209 | any serial sequence of successful creates, merging edits and deletes, as the program performs them, keeps balance = signed sum of the transactions |
| Treasury.StepKeepsDisplayable | src/components/Admin/TransactionManager.tsx:151-171 | as written, creates, merging edits and deletes with records that pass validation keep every stored record displayable: positive amount, description, and a non-empty detail field of its own type |
| Treasury.StepKeepsWellFormed | src/components/Admin/TransactionManager.tsx:151-171 | with the merging edit as written, a create, edit or delete with a record that passes validation keeps every stored record well formed if and only if it is not an edit that changes a transaction's type |
| Treasury.MergeUpdate | src/components/Admin/TransactionManager.tsx:151-171 | the edit as written merges fields: a detail field absent from the payload keeps its stored value |
| Treasury.MergeLeavesStaleDetail | src/components/Admin/TransactionManager.tsx:151-171 | editing income into expense through the merge leaves a stored expense that still has `receivedFrom` |
| Treasury.MergeWellFormedIff | src/components/Admin/TransactionManager.tsx:151-171 | merging a well-formed record into a well-formed stored one gives a well-formed record if and only if the type is unchanged |
| Treasury.MergeAgreesOnBalance | src/components/Admin/TransactionManager.tsx:162-172 | the merging edit and the corrected overwrite leave the same balance record and the same signed sum, so the finding does not affect the balance |
| Treasury.AmendKeepsWellFormed | src/components/Admin/TransactionManager.tsx:151-171 | with the corrected overwrite, an edit keeps every stored record well formed |
| TransactionForms.Validate | src/components/Admin/TransactionManager.tsx:132-147 | a form passes if and only if it is complete. Otherwise the first failing check is reported, in the order amount, description, receivedFrom (income), expenseCategory (expense) |
| TransactionForms.BuildRecord | src/components/Admin/TransactionManager.tsx:150-160 | the record has `receivedFrom` only for income and `expenseCategory` only for expense. The related event is null exactly when the field is empty |
| TransactionForms.ValidFormBuildsWellFormed | src/components/Admin/TransactionManager.tsx:132-160 | a form that passes validation produces a well-formed record |
| TransactionForms.FormOf | src/components/Admin/TransactionManager.tsx:189-201 | the edit form keeps the type and the amount of the transaction, and the form of a well-formed transaction is complete |
| TransactionForms.EditRoundTrip | src/components/Admin/TransactionManager.tsx:189-201 | loading a well-formed transaction into the form and submitting it unchanged passes validation and writes back the same record |
| TransactionAdmin.TransactionManager.constructor | src/components/Admin/TransactionManager.tsx:48-67 | the component starts with an empty form, nothing being edited, the form hidden and no delete dialog |
| TransactionAdmin.TransactionManager.ResetForm | src/components/Admin/TransactionManager.tsx:98-110 | the form is emptied, the edit target cleared and the form hidden |
| TransactionAdmin.TransactionManager.BeginEdit | src/components/Admin/TransactionManager.tsx:189-201 | the form holds the chosen transaction, which is remembered as the edit target |
| TransactionAdmin.TransactionManager.AskDelete | src/components/Admin/TransactionManager.tsx:403 | the delete dialog opens for the chosen id |
| TransactionAdmin.TransactionManager.UpdateTreasuryBalance | src/components/Admin/TransactionManager.tsx:112-126 | the record becomes `WithChange` of the old record, so the balance a reader sees moves by exactly the change |
| TransactionAdmin.TransactionManager.Submit | src/components/Admin/TransactionManager.tsx:128-187 | A rejected form writes nothing and reports the first failing check. A refused write changes nothing. A create equals `Record` and an edit equals `MergeEdit` (the merge the program performs) of the prior state. On success the form is reset. Balance = signed sum is preserved |
| TransactionAdmin.TransactionManager.Delete | src/components/Admin/TransactionManager.tsx:203-217 | A listed id is removed as `Remove` describes, and the dialog closes. An unlisted id writes nothing and closes the dialog. A refused delete changes nothing. Balance = signed sum is preserved |
| Events.Toggled | src/components/Admin/EventManager.tsx:135 | the new status is always the other one of the two |
| Events.ToggleTwice | src/components/Admin/EventManager.tsx:135 | toggling twice restores the original status |
| Events.WithStatusToggled | src/components/Admin/EventManager.tsx:135-136 | a toggle flips the status and keeps the title and description |
| Events.ToggleEventTwice | src/components/Admin/EventManager.tsx:135-136 | toggling an event twice gives back the same event |
| EventAdmin.EventManager.constructor | src/components/Admin/EventManager.tsx:36-52 | the component starts with an empty form (status upcoming), nothing being edited, the form hidden and no dialog |
| EventAdmin.EventManager.ResetForm | src/components/Admin/EventManager.tsx:68-77 | empty title and description, status upcoming, nothing being edited, form hidden |
| EventAdmin.EventManager.BeginEdit | src/components/Admin/EventManager.tsx:111-120 | the form holds the chosen event, whose id becomes the edit target |
| EventAdmin.EventManager.AskDelete | src/components/Admin/EventManager.tsx:265 | the delete dialog opens for the chosen id |
| EventAdmin.EventManager.Submit | src/components/Admin/EventManager.tsx:79-109 | An empty title or description writes nothing. While editing, only the edited id is overwritten; otherwise exactly one new event is added. Success resets the form; a refused write keeps every field |
| EventAdmin.EventManager.Delete | src/components/Admin/EventManager.tsx:122-131 | only the given id is removed and every other event is unchanged. The dialog closes. A refused delete keeps everything |
| EventAdmin.EventManager.ToggleStatus | src/components/Admin/EventManager.tsx:133-142 | only the status of the one target event flips. Other fields and other events are unchanged. A refused write changes nothing |
| AnnouncementAdmin.AnnouncementManager.constructor | src/components/Admin/AnnouncementManager.tsx:33-47 | the component starts with an empty form, nothing being edited, the form hidden and no dialog |
| AnnouncementAdmin.AnnouncementManager.ResetForm | src/components/Admin/AnnouncementManager.tsx:64-72 | empty title and content, nothing being edited, form hidden |
| AnnouncementAdmin.AnnouncementManager.BeginEdit | src/components/Admin/AnnouncementManager.tsx:105-113 | the form holds the chosen announcement, whose id becomes the edit target |
| AnnouncementAdmin.AnnouncementManager.AskDelete | src/components/Admin/AnnouncementManager.tsx:221 | the delete dialog opens for the chosen id |
| AnnouncementAdmin.AnnouncementManager.Submit | src/components/Admin/AnnouncementManager.tsx:74-103 | An empty title or content writes nothing. While editing, only the edited id is overwritten; otherwise exactly one new announcement is added. Success clears the form; a refused write keeps it |
| AnnouncementAdmin.AnnouncementManager.Delete | src/components/Admin/AnnouncementManager.tsx:115-124 | only the given id is removed and every other announcement is unchanged. A refused delete keeps everything |
| EventsSection.WithStatus | src/components/PublicView/EventsSection.tsx:41-42 | every selected event has the status, and no more events are selected than listed |
| EventsSection.OngoingEvents | src/components/PublicView/EventsSection.tsx:41 | `ongoingEvents` holds exactly the listed events whose status is ongoing |
| EventsSection.UpcomingEvents | src/components/PublicView/EventsSection.tsx:42 | `upcomingEvents` holds exactly the listed events whose status is upcoming |
| EventsSection.WithStatusMembers | src/components/PublicView/EventsSection.tsx:41-42 | an event is selected if and only if it is listed with that status |
| EventsSection.WithStatusAppend | src/components/PublicView/EventsSection.tsx:41-42 | the filter works piecewise, so the selected events keep their original order |
| EventsSection.WithStatusKeepsAll | src/components/PublicView/EventsSection.tsx:41-42 | a list whose events all have the status is kept whole |
| EventsSection.SectionsPartition | src/components/PublicView/EventsSection.tsx:41-42 | the ongoing and upcoming lists together hold every event exactly as often as listed. Their lengths add up to the number of events |
| EventsSection.SectionsDisjoint | src/components/PublicView/EventsSection.tsx:41-42 | no event is in both sections |
| EventsSection.Render | src/components/PublicView/EventsSection.tsx:44-116 | Only the spinner shows while loading. Afterwards each section shows when it has events, and the "no events" notice shows if and only if there are no events |
| EventsSection.NoticeIffNoSection | src/components/PublicView/EventsSection.tsx:56-116 | once loaded, the notice shows exactly when neither section does |
| CurrencyFormatter.Abs | src/utils/currencyFormatter.ts:23 | the magnitude is the amount or its negation, and never negative |
| CurrencyFormatter.FormatTransactionAmount | src/utils/currencyFormatter.ts:22-25 | The text starts with '+' for income and '-' for expense. The rest is `formatCurrency(\|amount\|)`. It is one character longer than that |
| CurrencyFormatter.SignIgnored | src/utils/currencyFormatter.ts:23 | f(a, t) = f(-a, t) |
| CurrencyFormatter.PrefixDeterminesKind | src/utils/currencyFormatter.ts:24 | equal texts have equal transaction types |
| CurrencyFormatter.TextDeterminesMagnitude | src/utils/currencyFormatter.ts:23-24 | with an injective `formatCurrency`, equal texts have equal magnitudes |
| Auth.Allowed | src/hooks/useAuth.tsx:14 | the allow-list check looks an address up as it is, and a missing address as the empty string |
| Auth.NoEmptyEntry | src/config/firebase.ts:48 | the allow-list never contains the empty string |
| Auth.NoEmailNeverAdmin | src/hooks/useAuth.tsx:14 | a user without an e-mail address is never admin |
| Auth.AuthSession.constructor | src/hooks/useAuth.tsx:7-9 | exists only once start-up succeeded; starts with no user, loading and not admin, over the allow-list that start-up parsed |
| Auth.AuthSession.OnAuthStateChanged | src/hooks/useAuth.tsx:11-17 | User, isAdmin and loading are set together from the callback's user alone. isAdmin holds if and only if a user is present and its e-mail (missing reads as '') is allow-listed. Loading becomes false and is never set back |
| Auth.AuthSession.LoginWithGoogle | src/hooks/useAuth.tsx:21-35 | The user is returned if and only if signed in and allow-listed. Any other signed-in user is signed out and null is returned. A provider error returns null with its message, or 'Failed to login' if the message is empty |

## Left out

- Database SDK calls are replaced by maps, and a refused write is a parameter. This covers `onSnapshot`, `addDoc`, `updateDoc`, `deleteDoc`, `getDoc`, `setDoc` and `serverTimestamp`. `updateDoc` on a missing document is taken to fail, and `deleteDoc` on a missing document to succeed.
- Live subscriptions: the cached lists are taken to equal the stored collections. Stale caches are not modelled.
- Concurrent admin sessions are not modelled.
- A partial failure, where the document write succeeds and the balance write then fails, is not modelled. Only "a refused document write changes nothing" is modelled.
- Amounts are whole paise (`int`). JavaScript doubles, `parseFloat` rounding and the `NaN` that non-numeric input produces are not modelled. The amount field is either blank or a parsed number.
- Dates, `toISOString` / `toDate` conversions, `createdAt`, and the date field of every form and document.
- `Intl.NumberFormat` inside `formatCurrency` is a parameter of `FormatTransactionAmount`. date-fns formatting is not part of this model.
- Popup sign-in and sign-out calls: the sign-in result is a parameter, and `signedOut` reports the sign-out call.
- `logout`: its effect reaches the state only through the auth-state callback.
- Toasts and console warnings are left out, except where a notice string is the result.
- The no-admin warning and development logging in `firebase.ts` (lines 50-61) are left out.
- JSX and UI of every component are left out. This includes `LoadingSpinner`, `TransactionModal`, `BalanceSection`, `AnnouncementsSection`, `Header`, `Login`, and the `Admin` and `Index` pages.
- EventsSection.Render: the loading flag is an input. The subscription that clears it, including on error, is not modelled.
- TransactionForms.EditRoundTrip: assumes `amount.toString()` parses back to the same amount.
- StepKeepsWellFormed: the edit as written merges fields, so an edit that changes a transaction's type leaves a record that is not well formed (see "## Findings"). The lemma states this as an if-and-only-if, and StepKeepsDisplayable states what every step still keeps.

## Findings

| source | as written | input that shows it | evidently intended | confidence | as-written member | corrected member |
|---|---|---|---|---|---|---|
| src/components/Admin/TransactionManager.tsx:151-171 | Edits go through `updateDoc`, which merges fields. The payload leaves out the detail field of the other type, so that field keeps its stored value. | Edit an income of 100 with receivedFrom "Asha" into an expense of 40 with category "Food". The stored expense still has receivedFrom "Asha". | The stored record carries only the detail field of its type, as on create. The balance is unaffected either way. | medium, not executed; the public modal chooses the field to show by type | Treasury.MergeUpdate, Treasury.MergeEdit, Treasury.MergeLeavesStaleDetail, Treasury.MergeWellFormedIff | Treasury.Amend, Treasury.AmendKeepsWellFormed |

The transaction manager and the replay lemma follow the program as written: an edit is `MergeEdit`. `Amend` states the intended edit. `MergeAgreesOnBalance` shows that the two leave the same balance, so the reconciliation results hold for both.
