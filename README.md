# Property management dashboard: occupancy and invoice trackers

This project models the two table-update rules of the property management
dashboard's customization layer (`src/appCustomization.tsx`), and proves
properties about them in Dafny.

- **Occupancy tracker** (`PropertyOccupation`, `property_occupation.dfy`).
  The component holds a list of property records: id, name, status,
  next action and due date. `handleActionClick(id)` builds a new list. A record
  with that id has its status flipped: `Vacant` becomes `Occupied`, and anything
  else becomes `Vacant`. Its next action becomes the button label for the new
  status (`Occupy` when vacant, `Vacate` otherwise). Its due date becomes "today
  plus three months". Every other record is kept as it was.
- **Invoice tracker** (`InvoiceProcessing`, `invoice_processing.dfy`).
  The component holds a list of invoices: id, property label, amount, status and
  due date. `handleStatusChange(id, newStatus)` builds a new list in which only
  the status of the invoices with that id is replaced.

Both handlers are modelled as recursive functions over `seq`. Each takes the old list
and returns the list the component passes to its state setter. The component
keeps every status and action as a string. The model does the same, and uses
predicates to say which values are meaningful: `IsOccupancyStatus`,
`RecordConsistent`/`Consistent` (the status and its action agree), and
`IsInvoiceStatus` (the three values the status selector offers). "Today plus
three months" is the `today3m` parameter.

The data model says the status fields are enumerations. The code types
them as strings and stores whatever it is given. The model follows the code.
So the toggle maps any status other than `Vacant` to `Vacant`, and
the invoice handler accepts any string. The lemmas state what holds for the
meaningful values, and what happens outside them.

## Model

| member | source | states |
|---|---|---|
| `PropertyOccupation.Opposite` | src/appCustomization.tsx:28 | the new status is always `Vacant` or `Occupied` and always differs from the old one |
| `PropertyOccupation.ActionFor` | src/appCustomization.tsx:29 | the label is `Occupy` or `Vacate`, and `Occupy` exactly when the status is `Vacant` |
| `PropertyOccupation.ToggleRecord` | src/appCustomization.tsx:28-31 | a toggled record keeps its id and name, gets a different status that is one of the two occupancy statuses and a matching next action, and carries the supplied due date |
| `PropertyOccupation.HandleActionClick` | src/appCustomization.tsx:25-35 | same length and order; records with another id are returned unchanged; every record with the id is replaced by its toggled copy |
| `PropertyOccupation.InitialProperties` | src/appCustomization.tsx:19-23 | the seed table has three records, each status/action pair agrees, ids are unique and due dates are YYYY-MM-DD |
| `PropertyOccupation.OppositeTwice` | src/appCustomization.tsx:28 | flipping twice restores a status exactly when it is `Vacant` or `Occupied`; any other string ends as `Occupied` |
| `PropertyOccupation.ToggleFlipsStatus` | src/appCustomization.tsx:27-28 | a record's status changes exactly when its id is the clicked one, and then `Vacant` becomes `Occupied` and `Occupied` becomes `Vacant` |
| `PropertyOccupation.ToggleKeepsConsistent` | src/appCustomization.tsx:26-34 | if every record's next action matches its status before a click, the same holds after it |
| `PropertyOccupation.ToggleKeepsIds` | src/appCustomization.tsx:31 | every record keeps its id and name in place, so unique ids stay unique |
| `PropertyOccupation.ToggleKeepsDueDatesWellFormed` | src/appCustomization.tsx:30-31 | all due dates stay YYYY-MM-DD when the supplied date is one |
| `PropertyOccupation.ToggleUnknownIdIsNoOp` | src/appCustomization.tsx:26-34 | the list comes back unchanged if and only if no record has the id |
| `PropertyOccupation.ToggleTwiceRestoresStatus` | src/appCustomization.tsx:28 | two clicks on one id restore every status, provided each is `Vacant` or `Occupied` |
| `PropertyOccupation.ToggleTwiceRestores` | src/appCustomization.tsx:28-31 | on a consistent table two clicks on one id restore every record, except that the matched ones carry the second click's due date |
| `PropertyOccupation.ToggleTwiceNeedsConsistency` | src/appCustomization.tsx:29 | a vacant record labelled `Vacate` comes back from two clicks labelled `Occupy`, so the round trip needs the status/action invariant |
| `PropertyOccupation.ToggleCommutes` | src/appCustomization.tsx:26-34 | clicks on two different ids give the same list in either order |
| `PropertyOccupation.InitialToggleScenario` | src/appCustomization.tsx:20-22 | clicking id 1 of the seed table makes "Shopping Center A" `Occupied`/`Vacate` with the new due date; a second click makes it `Vacant`/`Occupy`; the other rows are untouched |
| `PropertyOccupation.InitialUnknownIdScenario` | src/appCustomization.tsx:26-34 | clicking id 999 returns the seed table unchanged |
| `InvoiceProcessing.HandleStatusChange` | src/appCustomization.tsx:80-84 | same length and order; id, property, amount and due date unchanged everywhere; status replaced on matched invoices only; other invoices returned unchanged |
| `InvoiceProcessing.InitialInvoices` | src/appCustomization.tsx:74-78 | the seed table has three invoices with unique ids, each status one of the selector's values |
| `InvoiceProcessing.StatusChangeNoOp` | src/appCustomization.tsx:81-83 | the list comes back unchanged if and only if every invoice with the id already has the chosen status; in particular when no invoice has the id |
| `InvoiceProcessing.StatusChangeKeepsStatusesValid` | src/appCustomization.tsx:112-114 | choosing one of `Pending`/`Paid`/`Overdue` keeps every status within that set |
| `InvoiceProcessing.StatusChangeStoresAnyString` | src/appCustomization.tsx:80-82 | the handler does not check its argument: a value outside the selector's set, stored on an existing id, leaves a status outside the set |
| `InvoiceProcessing.StatusChangeKeepsIds` | src/appCustomization.tsx:82 | unique ids stay unique |
| `InvoiceProcessing.StatusChangeLastWins` | src/appCustomization.tsx:81-83 | two changes to one id equal the later change alone; choosing the same value twice equals choosing it once |
| `InvoiceProcessing.StatusChangeCommutes` | src/appCustomization.tsx:81-83 | changes to two different ids give the same list in either order |
| `InvoiceProcessing.StatusChangeUndo` | src/appCustomization.tsx:81-83 | with unique ids, choosing an invoice's previous status again undoes a change to it |
| `InvoiceProcessing.InitialPaidScenario` | src/appCustomization.tsx:77 | marking seed invoice 3 `Paid` changes its status only (amount 6000, due date 2023-09-01), and the other rows are untouched |

## Left out

- The clock and date arithmetic on line 30 (`new Date()`, adding three months, `toISOString`) are not modelled. They depend on the wall clock, the time zone and the JavaScript Date rules for month overflow. The resulting date is the `today3m` parameter. `IsIsoDate` only checks its YYYY-MM-DD shape, not that it is a real calendar date.
- React state (`useState`, the setters on lines 26 and 81) and re-rendering are not modelled. Each handler is modelled as the function that computes the next list.
- The JSX tables, buttons and selectors (lines 37-70, 86-122) are not modelled. Only the selector's three option values appear, as `STATUS_OPTIONS`.
- The static configuration `customConfig`, `customComponents` and `customData` (lines 126-220) is not modelled. It is data with no behaviour.
- The `£` prefix on line 103 is display formatting, and the `config` prop is never read. Neither is modelled.
- The invoice `amount` is a JavaScript number. The model uses `int`: every seed amount is whole, and no operation reads or changes it.
- The model has no result type that tells an update apart from an unknown id. The source silently returns the list unchanged, and the lemmas `ToggleUnknownIdIsNoOp` and `StatusChangeNoOp` state that behaviour.
