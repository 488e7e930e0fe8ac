# Employee roster editor — Dafny model

A model of the in-memory state of the single-page employee roster editor
(`EmployeeManagement` in `script.js`): an ordered list of employee records with
five string fields (id, name, designation, gender, salary) and an optional
selected record, changed by the form's Add, Modify and Delete buttons, by typing
an id into the id field and by clicking a table row.

- `employees.dfy`, module `Employees`: the record, the form's presence check
  (`validateForm`), the lookups the class performs (`findIndex`/`find` by id, the
  duplicate-id `some`), the slot that a selection resolves to, lemmas that
  appending, overwriting and splicing keep ids pairwise distinct, and a lemma that the
  duplicate check refuses exactly the submissions that would break distinctness.
- `management.dfy`, module `Management`: the class `EmployeeManagement` with the
  fields `employees: seq<Employee>` and `selected: Option<nat>`, one method per
  operation, the `Notice` each operation reports instead of an alert, and three
  client methods whose verification drives whole editing sessions through the method
  contracts.

Modelling decisions:

- The selected record is held as its position in `employees`. The source holds an
  object reference; every stored record is a distinct object (each form read builds
  a new one), rows are rebuilt after each successful change, and failed calls change
  nothing, so a reference and a position name the same row. `Valid()` states that a
  selection always names an existing row and that every stored record has all five
  fields non-empty (records are stored only after the presence check), and every
  method keeps it.
- The duplicate check of `addEmployee` compares objects, so it excludes the
  selected position (`IdTakenByOther`). The overwrite and splice, by contrast, go to
  the first row whose id equals the selected record's id (`SlotOfSelected`). The two
  agree while ids are distinct (`SlotOfSelected` ensures so). If two rows ever shared
  an id they would differ: `SharedIdScenario` shows deleting the selected second row
  removing the first.
- `addEmployee` chooses its message after `clearForm` has dropped the selection, so
  it always reports "New Employee Added Successfully", also when it overwrote a row.
  The model keeps this: `AddEmployee` computes the notice from the cleared selection
  and its contract proves the result is always `EmployeeAdded` on success.
- `modifyEmployee` performs no duplicate-id check. On the page this does no harm:
  the id field's `input` listener runs `autofillById` on every edit, and a row click
  writes the clicked record's id into the field, so while a row is selected the form's
  id is the selected row's id, and an overwrite with that id keeps ids distinct
  (`OverwriteWithSelectedIdKeepsDistinctIds`, and the last `ensures` of
  `ModifyEmployee`). Because the model takes the form data as a free parameter, it
  also covers form data the page never produces: a form id different from the
  selected row's id, which `ModifyToSharedId` shows being written unchecked.
- The `index !== -1` guards in `modifyEmployee` and `deleteEmployee` return without
  any message when they fail; there is no not-found notice. The model keeps the
  branch (notice `NoNotice`), and the contracts show it is never taken while
  `Valid()` holds.
- Form data is a method parameter; the alert is the returned `Notice`, whose text is
  given by `Message`.

## Model

| member | source | states |
|---|---|---|
| `Employees.IsValid` | script.js:47-49 | the form is accepted exactly when none of the five fields is the empty string |
| `Employees.FindIndex` | script.js:102 | returns the position of the first record carrying the id, with no earlier record carrying it; returns nothing exactly when no record carries it |
| `Employees.IdTakenByOther` | script.js:68 | true exactly when some record at a position other than the selected one carries the id |
| `Employees.SlotOfSelected` | script.js:75-77 | the slot a selection resolves to is at or before the selected row, carries the selected id, no earlier row carries that id, and it is the selected row itself whenever ids are distinct |
| `Employees.UnselectedDuplicateIsPresence` | script.js:68 | with nothing selected, the duplicate check holds exactly when the id is already somewhere in the roster |
| `Employees.AppendKeepsDistinctIds` | script.js:79-81 | appending a record whose id no row carries keeps ids pairwise distinct |
| `Employees.OverwriteKeepsDistinctIds` | script.js:68-78 | overwriting a slot with a record whose id no other slot carries keeps ids pairwise distinct |
| `Employees.OverwriteWithSelectedIdKeepsDistinctIds` | script.js:102-104 | overwriting the slot a selection resolves to with a record that carries the selected row's id keeps ids pairwise distinct |
| `Employees.RemoveKeepsDistinctIds` | script.js:117-119 | splicing one row out keeps ids pairwise distinct |
| `Employees.DuplicateCheckIsExact` | script.js:68-81 | on a roster with distinct ids, the duplicate check refuses a submission if and only if appending it (nothing selected) or writing it over the selected slot would leave two rows with one id |
| `Management.Message` | script.js:64-122 | the alert text each notice shows, non-empty for every notice, and none exactly for the silent branch |
| `Management.EmployeeManagement.constructor` | script.js:2-4 | the roster starts empty with nothing selected |
| `Management.EmployeeManagement.ClearForm` | script.js:51-53 | drops the selection and leaves the roster unchanged |
| `Management.EmployeeManagement.AddEmployee` | script.js:60-87 | an invalid form or an id carried by another row leaves roster and selection unchanged with the matching notice; otherwise it appends (nothing selected) or overwrites the selected id's first slot (length and other slots unchanged), clears the selection, always reports an addition, keeps distinct ids distinct, and keeps every stored record valid |
| `Management.EmployeeManagement.ModifyEmployee` | script.js:89-109 | without a selection or with an invalid form nothing changes and the matching notice is returned; otherwise the first slot carrying the selected id is overwritten with no duplicate check, the length is kept, the selection is cleared and a modification is reported; when the new record keeps the selected row's id, distinct ids stay distinct; every stored record stays valid |
| `Management.EmployeeManagement.DeleteEmployee` | script.js:111-124 | without a selection nothing changes; otherwise exactly the first row carrying the selected id is removed, the rest keep their order, the multiset of rows loses just that row, the selection is cleared, a deletion is reported, and distinct ids stay distinct |
| `Management.EmployeeManagement.SelectById` | script.js:160-183 | the roster is unchanged; the selection becomes the first row whose id equals the input exactly, or nothing when none does; the returned record is that row |
| `Management.EmployeeManagement.SelectRow` | script.js:139-144 | clicking a row selects that very row and returns its record; the roster is unchanged |
| `Management.EditSessionScenario` | script.js:60-124 | add E1, select it, resubmit it through Add (an edit reported as an addition, roster holds the edited E1), Modify without a selection is refused, select and delete leaves an empty roster |
| `Management.ModifyToSharedId` | script.js:89-109 | given form data whose id differs from the selected row's (which the id-field listener never produces), modifying the second of two rows into the first's id is accepted and leaves two rows with one id |
| `Management.SharedIdScenario` | script.js:60-124 | with two rows sharing an id and the second selected, Add refuses the selected row's own data as a duplicate, and Delete removes the first row, not the selected one |

## Left out

- Reading the form from the page (`getFormData`) and the element lookups of the constructor: the form data is a method parameter.
- Rendering the table (`updateTable`) and wiring a click listener to each row: only the selection a click makes is modelled, as `SelectRow`.
- Row highlighting, `form.reset()`, writing a selected record's fields back into the inputs (returned as a value instead), and the buttons' `disabled` flags, which only mirror whether a selection exists.
- `showNotification`/`alert`: replaced by the returned `Notice`.
- Event registration and the page-load bootstrap. The registration does shape which calls occur: the id field's `input` listener runs `autofillById` on every edit, which keeps the form's id equal to the selected row's id. The model does not tie the form data parameter to the id field; it states the consequence as a conditional `ensures` of `ModifyEmployee` instead.
- Strings are Dafny character sequences; the model does not distinguish JavaScript's UTF-16 code units from characters, which does not affect exact equality or emptiness.
