# Warehouse tool custody: a Dafny model

This project models the core of a warehouse tool-custody application. The warehouse holds individual
physical tool units. A unit is checked out to an instructor, and the instructor later raises a return
request. A supervisor approves the return, and the unit becomes available again. The application keeps three
collections: the units, an append-at-front custody log, and the instructor roster.

The model follows the application's screens and its state handlers:

- `Custody`: the application state and its handlers, as the class `Warehouse`.
  - Its fields are `items`, `transactions` and `instructors`.
  - There is one method per handler: add stock, check out, instant issue, return request, approve return,
    and the four roster handlers.
  - Each method is specified by pure list-level functions.
  - The lemmas prove the holder invariant: a holder is recorded exactly when a unit is in custody. They also
    prove a check-out / request / approve round trip.
- `Checkout`: the supervisor's issue screen.
  - The availability grouping collects Available units by the key `name-category` and counts them.
  - The groups are then sorted by name.
  - The submit handler's validation chain covers the quantity range 1..100, the instructor lookup, name
    cleaning, and the over-request check against the group count.
  - The form's state is the class `CheckoutForm`.
  - The grouping loop is a method. Its specification is a recursive function, and what the function
    computes is proved: one group per key, the first unit as representative, counts that add up to the
    number of Available units, every Available unit covered, and sorted by name.
- `Dashboard`: the status cards, which partition the inventory, and the borrower panel.
- `ActivityLog`: the history screen, which shows only Checkout and Return entries.
- `Returns`:
  - the pending-request list;
  - the checked-out list and its search;
  - the approve buttons;
  - the rejection editor, as the class `RejectionEditor`.
- `InstructorPortal`:
  - login against the roster;
  - the instructor's own custody list and its return-request button;
  - taking an available unit;
  - the instant-issue form;
  - the password change;
  - as the class `PortalSession`.
- `SupervisorLogin`: the lockout machine. Five failures lock the form for 30 seconds, counted down by a
  one-second timer. It is the class `LoginForm`, with `Submit` and `Tick` specified by the pure steps
  `SubmitStep` and `TickStep`.
- `InstructorManager`: the add-instructor form, the default-password badge, and the confirmed reset and
  delete buttons.
- `InventoryManager`: the stock form.
- `GeminiService`: the input sanitiser applied to assistant queries.
- `Types`, `Seqs`, `Strings`: the entities, and the JavaScript semantics the code relies on.
  - Sequences cover `filter`, `find` and `reverse`.
  - Strings cover `trim` over the ECMAScript whitespace set, `includes`, and lexicographic order standing in
    for `localeCompare`.
  - `Types` also holds `s || fallback` on strings and `parseInt(v) || 1`.

Behaviour of the code worth knowing:

- **No transition is refused.** The handlers check no status. A check-out of a unit that is already out is
  carried out, and an approval of an Available unit is carried out. Approving twice logs two Return entries;
  see `Custody.ApproveTwice`.
  - The model therefore states the holder invariant conditionally. `RequestReturnOnAvailableBreaksInvariant`
    exhibits a request on an Available unit that breaks it.
- **Quantities do not reach the handlers.** The issue screen validates a quantity and checks it against the
  group count. The check-out and instant-issue handlers take no quantity, so one unit moves, or one unit is
  created; see `Custody.CheckoutMovesOneUnit`. Only stock addition creates `quantity` units.
- **Rejection is not wired.** The returns screen is mounted without a rejection handler. A valid rejection
  submit calls a missing function and throws before the editor resets. No item ever returns from
  PendingReturn to CheckedOut, and there is no rejection reason and no rejection log kind.
  - The instructor portal is likewise mounted without an instant-issue handler.
  - Both are modelled with a `hasHandler` flag.
- **Grouping is by name and category only.** The key is `name-category`, so two different
  (name, category) pairs can collide ("Drill-Bit"/"Set" and "Drill"/"Bit-Set"); see `Checkout.KeyCollision`.

## Model

| member | source | states |
|---|---|---|
| Types.ParsedOrOne | components/InstructorPortal.tsx:414 | NaN and 0 become 1; every other parsed number, negatives included, is kept |
| Types.IfConfirmed | components/InstructorManager.tsx:86-101 | the confirm gate behind the reset, delete and approve buttons: the value is handed on exactly when the confirmation is accepted; what each gated call then does is stated by `InstructorManager.DeletedCannotSignIn` and `Returns.ApprovedUnitsInCustody` |
| Types.OrElse | App.tsx:244 | a missing or empty string falls back to the placeholder, any other string is kept |
| Strings.Trim | components/Checkout.tsx:49 | the result is the contiguous slice `s[i..j]` of the input with only whitespace before `i` and from `j` on, and no whitespace at either end of it; it is empty exactly when the input is all whitespace |
| Strings.TrimIdempotent | components/Checkout.tsx:49 | trimming twice is trimming once |
| Strings.Includes | components/Returns.tsx:21-24 | true exactly when the term occurs as a contiguous block at some position |
| Strings.IncludesPrefix | components/Returns.tsx:21-24 | a string containing a longer term contains every prefix of it |
| Strings.LexTotal | components/Checkout.tsx:32 | the name comparison used for sorting is total |
| Strings.LexTransitive | components/Checkout.tsx:32 | the name comparison used for sorting is transitive |
| GeminiService.SanitizeInput | services/geminiService.ts:6-8 | the result holds none of `< > { } [ \`, is at most 500 characters, and keeps the input's other characters in order |
| GeminiService.SanitizeIsTruncatedFilter | services/geminiService.ts:6-8 | the result is the first 500 harmless characters of the input |
| GeminiService.SanitizeIdempotent | services/geminiService.ts:6-8 | sanitising a sanitised query changes nothing |
| GeminiService.SanitizeKeepsCleanInput | services/geminiService.ts:6-8 | a short query without suspicious characters passes unchanged |
| GeminiService.ClosingBracketKept | services/geminiService.ts:7 | the character class removes `\` but keeps `]` |
| GeminiService.SanitizeIgnoresTailAfterCap | services/geminiService.ts:6-8 | once 500 harmless characters are collected, what follows does not matter |
| Dashboard.CountStatus | components/Dashboard.tsx:11-13 | a status count is zero exactly when no unit has that status |
| Dashboard.ComputeStats | components/Dashboard.tsx:10-13 | the cards are the per-status counts; with the Maintenance count they add up to the total |
| Dashboard.StatusPartition | components/Dashboard.tsx:10-13 | the four status counts partition the inventory |
| Dashboard.Borrowers | components/Dashboard.tsx:93 | the panel lists exactly the units in custody, in order; their number is the checked-out plus pending cards |
| Dashboard.EmptyStateIffNoBorrowers | components/Dashboard.tsx:89-93 | the empty-state message shows exactly when the borrower list is empty |
| ActivityLog.CustodyMoves | components/ActivityLog.tsx:10-12 | the view is the log's Checkout and Return entries in log order, each with its multiplicity |
| ActivityLog.DisplayedCount | components/ActivityLog.tsx:19 | the badge counts the entries shown, never more than the log |
| ActivityLog.EmptyMessageIffNoCustodyMoves | components/ActivityLog.tsx:24 | the empty message shows exactly when the log holds only stock additions and return requests |
| ActivityLog.NewEntriesShowFirst | App.tsx:163 | prepending entries to the log prepends their custody moves to the view |
| Custody.FindItem | App.tsx:148 | finds the first unit with the id, or reports that none has it |
| Custody.FindInstructor | components/Checkout.tsx:44 | finds the first instructor with the id, or reports that none has it |
| Custody.CheckOutMatching | App.tsx:136-146 | every unit with the id becomes CheckedOut to the holder, whatever its status; the others are untouched |
| Custody.MarkPendingMatching | App.tsx:207-216 | every unit with the id becomes PendingReturn and keeps its holder; the others are untouched |
| Custody.ReturnMatching | App.tsx:247-257 | every unit with the id becomes Available with no holder; the others are untouched |
| Custody.NewUnits | App.tsx:106-113 | one Available unit per id, carrying the supplied fields |
| Custody.AddEntries | App.tsx:115-122 | one AddItem entry per new unit, carrying its id and name, named after `addedBy` or the supervisor label, and stamped with the handler's timestamp |
| Custody.ReplaceInstructor | App.tsx:62-65 | every roster entry with the updated id is replaced; the rest are kept |
| Custody.RemoveInstructor | App.tsx:83-84 | exactly the entries with the id disappear; the others keep their order and multiplicity |
| Custody.ResetPasswordOf | App.tsx:90-93 | entries with the id get the default password and keep their name; the others are kept |
| Custody.MapMatchingUnique | App.tsx:136-146 | with distinct ids, updating by id updates exactly one position |
| Custody.CheckoutKeepsHolderInvariant | App.tsx:135-166 | a check-out keeps "holder recorded exactly when in custody" |
| Custody.RequestReturnKeepsHolderInvariant | App.tsx:202-237 | a return request on units in custody keeps the holder invariant |
| Custody.RequestReturnOnAvailableBreaksInvariant | App.tsx:207-216 | a return request on an Available unit yields PendingReturn with no holder |
| Custody.ApproveKeepsHolderInvariant | App.tsx:240-278 | an approval keeps the holder invariant |
| Custody.AddItemKeepsHolderInvariant | App.tsx:101-133 | added stock without a holder keeps the holder invariant |
| Custody.CheckoutMovesOneUnit | App.tsx:135-166 | checking out one Available unit lowers the Available count by exactly one, with no quantity involved |
| Custody.AddItemRaisesAvailable | App.tsx:101-125 | added stock raises the Available count by the number of new units |
| Custody.ManualCheckoutAddsNoAvailable | App.tsx:169-199 | instant issue leaves the Available count unchanged |
| Custody.CustodyRoundTrip | App.tsx:135-278 | check-out, request and approval restore the inventory up to the unit's timestamp |
| Custody.FindUnique | App.tsx:148 | with distinct ids, looking up a unit's id finds that unit |
| Custody.Warehouse.constructor | App.tsx:30-41 | the state starts from the stored collections |
| Custody.Warehouse.HandleUpdateInstructor | App.tsx:62-68 | the roster is replaced by id; items and log unchanged |
| Custody.Warehouse.HandleAddInstructor | App.tsx:71-81 | one instructor with the fresh id and the default password is appended |
| Custody.Warehouse.HandleDeleteInstructor | App.tsx:83-88 | the entries with the id are removed |
| Custody.Warehouse.HandleResetPassword | App.tsx:90-97 | the entries with the id get the default password |
| Custody.Warehouse.HandleAddItem | App.tsx:101-133 | `quantity` new units are appended and their entries, in reverse creation order, go in front of the log |
| Custody.Warehouse.HandleCheckout | App.tsx:135-166 | an unknown id changes nothing; otherwise the units are checked out and one Checkout entry is logged |
| Custody.Warehouse.HandleManualCheckout | App.tsx:169-199 | one unit, already CheckedOut and labelled as instant issue, is appended with one Checkout entry |
| Custody.Warehouse.HandleRequestReturn | App.tsx:202-237 | an unknown id changes nothing; otherwise the units become PendingReturn and one ReturnRequest entry is logged |
| Custody.Warehouse.HandleApproveReturn | App.tsx:240-278 | an unknown id changes nothing; otherwise the units become Available and one Return entry naming the holder, or "unknown", is logged |
| Custody.CheckoutRequestApprove | App.tsx:135-278 | the three handlers in sequence log one Checkout, one ReturnRequest and one Return entry, newest first |
| Custody.ApproveTwice | App.tsx:240-278 | a second approval is not refused and logs a second Return entry naming "unknown" |
| Checkout.AvailableUnits | components/Checkout.tsx:21 | exactly the Available units, in order; as many as the Available card (the instructor portal filters its pick list the same way, components/InstructorPortal.tsx:137) |
| Checkout.GroupsOfSummarises | components/Checkout.tsx:24-31 | the groups have distinct keys, the first unit of each key as representative, the key's count, cover every unit, and their counts add up to the number of units |
| Checkout.InsertByName | components/Checkout.tsx:32 | inserting into a name-sorted list keeps it sorted and is a permutation |
| Checkout.SortByName | components/Checkout.tsx:32 | the result is sorted by name and is a permutation of the groups |
| Checkout.SortKeepsDistinct | components/Checkout.tsx:32 | sorting keeps the keys distinct |
| Checkout.SumSort | components/Checkout.tsx:32 | sorting keeps the total count |
| Checkout.GroupedSummarisesAvailable | components/Checkout.tsx:20-33 | every shown group is an Available unit of the inventory with its key's count of at least one; keys are distinct, the list is sorted, every Available unit is covered, and the counts add up to the Available card |
| Checkout.KeyCollision | components/Checkout.tsx:25 | two units with different name and category but the same joined key fall into one group |
| Checkout.CountGroups | components/Checkout.tsx:22-31 | the loop over a key table, kept in insertion order, yields exactly the groups of the specification |
| Checkout.AvailableItemsGrouped | components/Checkout.tsx:20-33 | the memoised list is the grouped, sorted availability |
| Checkout.FindGroup | components/Checkout.tsx:59 | none exactly when no representative has the id; otherwise a group at some index `k` whose representative has the id while none before `k` does |
| Checkout.CleanName | components/Checkout.tsx:49 | the cleaned name is a contiguous slice of the input with every `<` and `>` removed, cut only where that string has whitespace before and after; it has no angle brackets and no surrounding whitespace, and is empty exactly when the rest is whitespace |
| Checkout.DecideSubmit | components/Checkout.tsx:35-69 | the checks run in order: a quantity outside 1..100 is refused first, then an unknown instructor stops the submit, then an empty manual name or category or an empty selection does nothing; an over-request names the selected group and its count, which is below the quantity |
| Checkout.QuantityCheckedFirst | components/Checkout.tsx:38-41 | a quantity outside 1..100 is rejected before anything else, and only then |
| Checkout.CallbackNamesSelectedInstructor | components/Checkout.tsx:44-46 | every callback names the instructor found under the selected id |
| Checkout.OverRequestRefused | components/Checkout.tsx:59-63 | a found group with fewer units than requested refuses the submit with both numbers |
| Checkout.UnknownSelectionSkipsCheck | components/Checkout.tsx:59-65 | a selection that matches no group's representative is passed to the handler unchecked |
| Checkout.CheckoutWithinGroup | components/Checkout.tsx:59-65 | an accepted check-out of a found group asks for no more than its count |
| Checkout.CheckoutWithinStock | components/Checkout.tsx:20-65 | an accepted check-out of a shown group asks for no more than the Available units with its key |
| Checkout.ManualIssueCleaned | components/Checkout.tsx:49-56 | an instant issue carries the cleaned, non-empty name and a category |
| Checkout.ClampQuantity | components/Checkout.tsx:151 | the quantity input always yields a value in 1..100 |
| Checkout.CheckoutForm.constructor | components/Checkout.tsx:13-18 | the form starts empty, in catalogue mode, with quantity 1 |
| Checkout.CheckoutForm.EditQuantity | components/Checkout.tsx:151 | the quantity becomes the clamped parse |
| Checkout.CheckoutForm.SetManualMode | components/Checkout.tsx:112-115 | toggling the mode resets the quantity to 1 |
| Checkout.CheckoutForm.ResetForm | components/Checkout.tsx:71-77 | every field but the mode is cleared and the quantity is 1 |
| Checkout.CheckoutForm.HandleSubmit | components/Checkout.tsx:35-69 | the outcome is the validation chain on the grouped list; the form resets exactly when a handler is called; a valid form never fails the range check |
| Returns.PendingReturns | components/Returns.tsx:18 | exactly the PendingReturn units, in order |
| Returns.CheckedOutItems | components/Returns.tsx:19 | exactly the CheckedOut units, in order |
| Returns.ListsDisjoint | components/Returns.tsx:18-19 | no unit is in both lists |
| Returns.FilteredCheckedOut | components/Returns.tsx:21-24 | the checked-out units whose name, or non-empty holder, contains the term |
| Returns.EmptySearchShowsAll | components/Returns.tsx:21-24 | an empty search shows the whole checked-out list |
| Returns.NarrowerSearchShowsLess | components/Returns.tsx:21-24 | extending the term never adds a row |
| Returns.ApproveRows | components/Returns.tsx:130-206 | approve buttons sit only on PendingReturn rows of the requests tab and CheckedOut rows of the manual tab |
| Returns.ApprovedUnitsInCustody | components/Returns.tsx:130-206 | an approval the screen sends is always for a unit in custody |
| Returns.DecideRejection | components/Returns.tsx:31-39 | a submit is refused exactly when no row is selected or the reason is blank; otherwise it rejects, with the reason untrimmed, exactly when the handler exists, and hits the missing handler when it does not |
| Returns.BlankReasonNeverRejects | components/Returns.tsx:32 | a whitespace-only reason never reaches the handler |
| Returns.RejectionEditor.constructor | components/Returns.tsx:15-16 | the editor starts closed with an empty reason |
| Returns.RejectionEditor.HandleRejectClick | components/Returns.tsx:26-29 | the editor opens on the row with an empty reason, and that row alone shows the editor instead of its buttons |
| Returns.RejectionEditor.EditReason | components/Returns.tsx:109 | the typed text becomes the reason, and the editor stays on its row |
| Returns.RejectionEditor.CancelRejection | components/Returns.tsx:41-44 | the editor closes, the reason is cleared, and no row shows the editor |
| Returns.RejectionEditor.SubmitRejection | components/Returns.tsx:31-39 | the editor closes, leaving every row with its buttons, exactly when a rejection is handed on; otherwise nothing changes |
| Returns.SubmitWithoutHandler | App.tsx:318 | as mounted, no rejection is ever carried out and the editor stays as it was |
| InstructorPortal.Authenticate | components/InstructorPortal.tsx:57-59 | sign-in succeeds exactly when the first entry with the selected id has the typed password |
| InstructorPortal.ResetThenDefaultLogin | components/InstructorPortal.tsx:57-59 | after a reset the instructor signs in with the default password |
| InstructorPortal.ChangedPasswordLogin | components/InstructorPortal.tsx:92-97 | after a change the new password signs in and every other password fails |
| InstructorPortal.MyItems | components/InstructorPortal.tsx:130-135 | with nobody signed in, nothing; otherwise exactly the units in custody held under the instructor's name |
| InstructorPortal.ReturnRequestRows | components/InstructorPortal.tsx:280 | the rows with the return button are the CheckedOut ones of the instructor's list |
| InstructorPortal.RequestReturnClick | components/InstructorPortal.tsx:282-287 | the request goes out with the row's id and the instructor's name exactly when signed in and confirmed |
| InstructorPortal.PortalRequestKeepsCustody | components/InstructorPortal.tsx:280-287 | a request from the portal keeps the holder invariant and the unit stays listed as pending |
| InstructorPortal.PortalCheckoutShowsInMyItems | components/InstructorPortal.tsx:120-137 | taking an Available unit puts it in the instructor's list |
| InstructorPortal.DecidePasswordChange | components/InstructorPortal.tsx:75-91 | the checks run in order and the first that fails decides: not signed in, wrong current password, new and confirmation differ (tested before the length), shorter than 4 characters; each outcome holds exactly under its condition, and success sets the confirmed password |
| InstructorPortal.ChangeKeepsIdentity | components/InstructorPortal.tsx:92-97 | a change keeps the id and name |
| InstructorPortal.PasswordMessage | components/InstructorPortal.tsx:80-99 | only a successful change shows a non-error message |
| InstructorPortal.DecideManualCheckout | components/InstructorPortal.tsx:103-118 | a submit is skipped exactly when name, category, a positive quantity or a user is missing; past that guard the call goes out exactly when a handler exists |
| InstructorPortal.QuantityEntryNeverIssuesNonPositive | components/InstructorPortal.tsx:414 | garbage and 0 become 1, and a negative entry never issues anything |
| InstructorPortal.PortalSession.constructor | components/InstructorPortal.tsx:23-40 | nobody is signed in, every form is empty, the custody tab shows and the quantity is 1 |
| InstructorPortal.PortalSession.RestoreSession | components/InstructorPortal.tsx:43-51 | a remembered id found in a non-empty roster signs that instructor in; otherwise the user is kept; the sign-in form, the tab, the item form and the password form stay as they were |
| InstructorPortal.PortalSession.HandleLogin | components/InstructorPortal.tsx:53-65 | a correct password signs in and clears the error; otherwise the user is kept and the error text is shown; the selection, the typed password, the tab, the item form and the password form stay as they were |
| InstructorPortal.PortalSession.HandleLogout | components/InstructorPortal.tsx:67-73 | signs out and clears the sign-in form; the tab, the item form and the password form stay as they were |
| InstructorPortal.PortalSession.HandleChangePassword | components/InstructorPortal.tsx:75-100 | on success the update is handed on, the session holds it, the form clears and the success message shows; a failed check only sets its message; signed out, nothing changes; the sign-in form, the tab and the item form always stay as they were |
| InstructorPortal.PortalSession.HandleCheckoutSubmit | components/InstructorPortal.tsx:120-128 | with a selection and a user, the call goes out, the selection clears and the custody tab shows, otherwise both stay; the user, the sign-in form, the other item fields and the password form always stay as they were |
| InstructorPortal.PortalSession.EditQuantity | components/InstructorPortal.tsx:414 | the quantity becomes the parsed number, or 1 when the parse is NaN or 0 (`ParsedOrOne`), unclamped; every other field stays as it was |
| InstructorPortal.PortalSession.HandleManualCheckoutSubmit | components/InstructorPortal.tsx:103-118 | the outcome is the guard and handler decision; an issued call resets the item form, leaves manual entry and shows the custody tab, otherwise those fields stay; the user, the sign-in form, the selection and the password form always stay as they were |
| InstructorPortal.ChangePasswordAndSignInAgain | components/InstructorPortal.tsx:75-100 | a change pushed to the roster lets the instructor sign in with the new password |
| SupervisorLogin.CredentialsMatch | components/SupervisorLogin.tsx:38-40 | true exactly when the first supervisor with the name has the password |
| SupervisorLogin.SubmitStep | components/SupervisorLogin.tsx:33-54 | a submit is ignored while locked; a success changes no counter; a failure counts, a non-locking one leaves 1 to 4 attempts, the fifth locks; the count never passes 5 |
| SupervisorLogin.TickStep | components/SupervisorLogin.tsx:20-31 | while locked a tick takes off one second and the last one unlocks with the count cleared |
| SupervisorLogin.FailuresCount | components/SupervisorLogin.tsx:43-52 | from a fresh form, n failures count n, and exactly the fifth locks for 30 seconds |
| SupervisorLogin.LockedIgnoresSubmit | components/SupervisorLogin.tsx:35 | while locked, any submit changes nothing |
| SupervisorLogin.CountdownUnlocks | components/SupervisorLogin.tsx:20-31 | a lock ends exactly when its remaining seconds have ticked away, with the failure count cleared |
| SupervisorLogin.LockoutLastsThirtyTicks | components/SupervisorLogin.tsx:9-31 | five failures lock the form for exactly 30 ticks |
| SupervisorLogin.DisplayedSeconds | components/SupervisorLogin.tsx:99 | the seconds shown round the remaining time up |
| SupervisorLogin.LoginForm.constructor | components/SupervisorLogin.tsx:15-18 | the form starts unlocked with no failures, no time left and no error, a reachable lockout state |
| SupervisorLogin.LoginForm.Submit | components/SupervisorLogin.tsx:33-54 | the login callback fires exactly when unlocked and the credentials match; the state follows the submit step and the error text |
| SupervisorLogin.LoginForm.Tick | components/SupervisorLogin.tsx:20-31 | the state follows the tick step; the error line stays |
| InstructorManager.NameToAdd | components/InstructorManager.tsx:19-25 | the trimmed name is passed exactly when something is left after trimming |
| InstructorManager.DisabledIffNothingAdded | components/InstructorManager.tsx:51 | the button is disabled exactly when a submit would add nobody |
| InstructorManager.PaddingIgnored | components/InstructorManager.tsx:21-22 | padding around a name makes no difference |
| InstructorManager.AddedInstructorUsesDefault | components/InstructorManager.tsx:57 | a new instructor shows the default badge and signs in with the default password |
| InstructorManager.ResetRestoresBadge | components/InstructorManager.tsx:78-88 | after a reset the row shows the default badge again |
| InstructorManager.DeletedCannotSignIn | components/InstructorManager.tsx:97-101 | after a confirmed delete nobody signs in under that id |
| InstructorManager.AddForm.constructor | components/InstructorManager.tsx:17 | the name field starts empty |
| InstructorManager.AddForm.HandleSubmit | components/InstructorManager.tsx:19-25 | the trimmed name is handed on and the field clears, or nothing happens |
| InstructorManager.AddThroughForm | components/InstructorManager.tsx:19-25 | a submit appends one instructor with the trimmed name and the default password |
| InventoryManager.DisabledIffRefused | components/InventoryManager.tsx:86 | the button is disabled exactly when the guard refuses |
| InventoryManager.StockData | components/InventoryManager.tsx:18-22 | new stock is Available with no holder and no `addedBy` |
| InventoryManager.DecideAdd | components/InventoryManager.tsx:15-27 | the call goes out exactly when name, category and a positive quantity are present |
| InventoryManager.FormStockIsAvailable | components/InventoryManager.tsx:15-27 | stock from the form keeps the holder invariant and raises the Available count by the quantity |
| InventoryManager.StockForm.constructor | components/InventoryManager.tsx:9-13 | the form starts with an empty name and category and quantity 1 |
| InventoryManager.StockForm.EditQuantity | components/InventoryManager.tsx:78 | the quantity becomes the parsed number, or 1 when the parse is NaN or 0 (`ParsedOrOne`), unclamped |
| InventoryManager.StockForm.HandleSubmit | components/InventoryManager.tsx:15-27 | an accepted submit hands on the call and resets the form; otherwise nothing changes |
| InventoryManager.AddThroughForm | components/InventoryManager.tsx:15-27 | submitting into the state adds exactly `quantity` Available units |

## Left out

- Persistence: the storage service and `localStorage` are not modelled. The constructors take the stored
  collections, and `RestoreSession` takes the remembered id as a parameter.
- Ids and time: the id generator and the clock become parameters.
  - Each handler call takes the ids and the single timestamp it uses.
  - Where the source reads the clock twice in one handler, the model uses one timestamp.
- The generative-AI request in the assistant service is an external service call. Only its input sanitiser
  is modelled.
- Alerts, `confirm` dialogs and rendering:
  - alerts are outcomes;
  - a confirmation is a boolean parameter;
  - JSX markup is not modelled.
- Timers: `setInterval` and React's effect scheduling are the explicit `Tick` step.
- The supervisor credentials in `constants.ts` are configuration and are passed in as a list.
- Screen switching and the supervisor session flag in `App.tsx` are not modelled.
- Field setters that only copy an input into the state are left out, except the quantity inputs and the
  rejection reason (`Returns.RejectionEditor.EditReason`).
- The forms' HTML validation attributes are not modelled. The quantity inputs of the stock form and the
  portal's instant-issue form carry `min="1" max="100" required`, so a browser refuses a quantity of 150
  before the submit handler runs. The model's only gate is the handler's own guard, so
  `InventoryManager.DecideAdd`, `InventoryManager.StockForm.HandleSubmit` and
  `InventoryManager.AddThroughForm` accept such a quantity.
- String lengths, the 500-character cap and the 4-character minimum are counted in code points, not
  UTF-16 code units.
- Checkout.SortByName: `localeCompare` is modelled as lexicographic order on code points, and the contract
  does not state that the sort is stable.
- `Object.values` order is modelled as key insertion order. This is exact here because every key contains
  `-`, so no key is an array index.
