# Input / table component logic, in Dafny

This project models the pure logic inside a small set of React UI components:

- **DataTable** (`datatable.dfy`): the table's row selection. The selection is a
  sequence of row ids. Clicking a row's checkbox toggles it: an id already
  there has every occurrence removed, and a new id is appended at the end. The
  owner's `onRowSelect` callback receives a report of the data rows whose id
  is selected, in data order. The module also models the rendered shape:
  an optional "Select" header cell, one checkbox cell per row when the table
  is selectable, and one text cell per column.
- **App** (`app.dfy`): the demo page. Its form object has the fields name,
  email, password and username. `handleInputChange` sets the property named by
  the event target's id. `handleSubmit` appends a user only when name and email
  are both non-empty. The new user gets `id = users.length + 1` and role
  "User", and the form is then emptied. The page feeds its users to the table
  with the columns Name, Email and Role.
- **InputField** (`inputfield.dfy`): the input control's props, their
  defaults, and its local state (the internal value and the
  password-visibility flag). It covers the values derived from them: the
  displayed value `propValue ?? value`, the effective input type, and when
  the label, clear button, password toggle, helper text and error text
  appear. It also models the change, clear and toggle handlers.
- **ClassNames** (`classnames.dfy`): `cn`, which keeps the truthy arguments and
  joins them with single spaces.
- **JsValues** (`jsvalues.dfy`): JavaScript truthiness of strings, optional
  strings and optional booleans, shared by the modules above.

Each handler is one pure state transition. A callback prop is reduced to
"supplied or not", and an invoked callback becomes an `Option` output holding
what it would receive. An event is reduced to the data the handler reads: the
target's `(id, value)` pair on the page and the value in the input field.

## Model

| member | source | states |
|---|---|---|
| DataTable.RemoveAll | src/components/DataTable.tsx:29 | the filtered selection contains exactly the other ids, with their multiplicities, as a subsequence of the old one; its length drops by the number of occurrences removed |
| DataTable.Toggle | src/components/DataTable.tsx:26-33 | the toggled id's membership flips and every other id keeps its membership and multiplicity; an absent id is appended after the unchanged old entries; a present id is removed, leaving a shorter subsequence |
| DataTable.TogglePreservesNoDuplicates | src/components/DataTable.tsx:26-33 | a duplicate-free selection stays duplicate-free after a toggle |
| DataTable.RemoveAllNoDuplicates | src/components/DataTable.tsx:29 | filtering an id out of a duplicate-free selection keeps it duplicate-free |
| DataTable.RemoveAllAbsent | src/components/DataTable.tsx:29 | filtering out an id that is absent returns the selection unchanged |
| DataTable.RemoveAllAppend | src/components/DataTable.tsx:29 | filtering distributes over concatenation, so relative order is kept |
| DataTable.ToggleTwiceFromAbsent | src/components/DataTable.tsx:28-32 | toggling an absent id twice returns exactly the original sequence |
| DataTable.ToggleTwiceFromPresent | src/components/DataTable.tsx:28-32 | toggling a present id twice restores membership, but the id moves to the end |
| DataTable.ToggleTwiceRestoresIff | src/components/DataTable.tsx:28-32 | two toggles restore the exact sequence iff the id was absent, or occurred once as the last entry |
| DataTable.Report | src/components/DataTable.tsx:35 | the reported rows are exactly the data rows whose id is selected, with their multiplicities, as a subsequence of the data (data order) |
| DataTable.ReportMembershipOnly | src/components/DataTable.tsx:35 | the report depends only on which ids are selected, not on their order or repetition |
| DataTable.ToggleTwiceSameReport | src/components/DataTable.tsx:28-35 | after two toggles of one id the report equals the original one |
| DataTable.HandleSelectRow | src/components/DataTable.tsx:26-37 | the selection is updated whether or not there is a callback: an absent id is appended at the end, a present id has every occurrence removed; rows are reported iff a callback is supplied, and they are the data rows selected after the toggle, in data order and with their multiplicities, stated in terms of the old selection |
| DataTable.RowIds | src/components/DataTable.tsx:61 | the ids of the rows, one per row, in data order |
| DataTable.CellText | src/components/DataTable.tsx:78 | a cell shows the row's field named by the column, or "undefined" when the row has no such field |
| DataTable.RenderHeader | src/components/DataTable.tsx:44-54 | the header holds a "Select" cell first when selectable, then each column's title in column order |
| DataTable.RenderRow | src/components/DataTable.tsx:60-81 | a body line holds, when selectable, a checkbox checked iff the row's id is selected, then the row's text under each column |
| DataTable.Render | src/components/DataTable.tsx:41-84 | the table has the header line and one body line per data row, each with a leading checkbox for that row's id when selectable |
| DataTable.RenderShape | src/components/DataTable.tsx:44-81 | the header has one "Select" cell when selectable, then one title per column; there is one body row per data row; a row's checkbox is checked iff its id is selected, followed by each column's text |
| DataTable.CellCounts | src/components/DataTable.tsx:44-82 | N rows and M columns give N*M text cells, N checkbox cells when selectable (else none), and M header cells plus one when selectable |
| DataTable.TotalsOfUniformRows | src/components/DataTable.tsx:59-82 | rows that each hold m text cells and c checkboxes hold n*m text cells and n*c checkboxes in total |
| DataTable.CountsOfRow | src/components/DataTable.tsx:64-80 | one rendered row holds one text cell per column and one checkbox cell when selectable |
| App.InputChanged | src/App.tsx:36-38 | the property named by the event id reads back the new value, and every other property, including extra keys, is unchanged |
| App.Lookup | src/App.tsx:29-38 | the four named fields are always present on the form object, and any other key is present iff a change event added it |
| App.Submit | src/App.tsx:41-52 | with an empty name or email nothing changes; otherwise exactly one user is appended after the unchanged old list, with id old length + 1, the form's name and email, and role "User"; all four form fields are then "" and no other key remains |
| App.SubmitIgnoresPasswordAndUsername | src/App.tsx:43-49 | the user list after a submit does not depend on the password or username typed |
| App.Step | src/App.tsx:36-52 | an input change leaves the user list alone; any event keeps the old users as a prefix and adds at most one |
| App.Run | src/App.tsx:36-52 | after any run of events the old user list is a prefix of the new one, which is at most one user longer per event |
| App.StepKeepsNumbering | src/App.tsx:44-49 | if user i has id i+1 before an event, that still holds after it |
| App.ReachableWellNumbered | src/App.tsx:21-52 | from a well-numbered list, every list reachable by events stays numbered 1..n, keeps the old list as a prefix, and has unique ids |
| App.InitialWellNumbered | src/App.tsx:21-28 | the initial users carry ids 1, 2, 3 at indices 0, 1, 2, and every list reachable from them is numbered 1..n |
| App.WellNumberedUnique | src/App.tsx:44 | a list numbered 1..n has unique ids |
| App.UsersTableRows | src/App.tsx:15-19 | the page's table row i shows a checkbox (checked iff id i+1 is selected), then the name, email and role of user i, and its row ids are unique |
| App.UserRows | src/App.tsx:121-126 | the table is handed one row per user, carrying that user's id |
| ClassNames.KeptAppend | src/components/InputField.tsx:5-7 | the kept words of a concatenation are the kept words of each part, in order |
| ClassNames.KeptSingle | src/components/InputField.tsx:5-7 | one argument survives iff it is truthy (a non-empty string or the literal true, stringified as "true") |
| ClassNames.Kept | src/components/InputField.tsx:6 | at most one word per argument survives the truthiness filter, and every surviving word is non-empty |
| ClassNames.KeptEmptyIff | src/components/InputField.tsx:6 | no word survives iff no argument is truthy |
| ClassNames.Join | src/components/InputField.tsx:6 | splitting the joined string at every space gives the pieces of each word in turn, so words are separated by exactly one space; a join of non-empty words is empty iff there are none |
| ClassNames.Cn | src/components/InputField.tsx:5-7 | the class string is empty iff no argument is truthy, and splitting it at spaces gives the pieces of the kept words in argument order, including for multi-class strings |
| ClassNames.CnPair | src/components/InputField.tsx:5-7 | a non-empty class followed by one argument gives the class alone, or the class, one space and the argument's text when that argument is truthy |
| ClassNames.PiecesAppend | src/components/InputField.tsx:6 | splitting `w + " " + rest` gives the pieces of w followed by those of rest, whatever spaces w holds |
| ClassNames.PiecesOfSpaceFree | src/components/InputField.tsx:6 | a space-free word splits into just itself |
| ClassNames.CnDropsFalsy | src/components/InputField.tsx:5-7 | inserting a falsy argument ("", false, undefined) anywhere leaves the class string unchanged |
| ClassNames.SplitCn | src/components/InputField.tsx:5-7 | in the special case where no kept word contains a space, splitting the class string gives back the kept words, one per truthy argument |
| InputField.Resolve | src/components/InputField.tsx:47-52 | an omitted variant, size, type or theme defaults to outlined, medium, "text" or light; a supplied one is kept |
| InputField.Defaults | src/components/InputField.tsx:47-52 | with the defaults the field is never shown as a password and has no password toggle |
| InputField.Displayed | src/components/InputField.tsx:59 | a supplied value prop, even "", is shown; the internal value shows only when the prop is undefined |
| InputField.EffectiveType | src/components/InputField.tsx:60 | the rendered type differs from the given type iff the password toggle is shown and revealing, and it is then "text" |
| InputField.ShowLabel | src/components/InputField.tsx:69 | the label appears iff the label prop is a non-empty string |
| InputField.ShowClear | src/components/InputField.tsx:87 | the clear button appears iff the field is clearable and its shown value is non-empty; with a value prop, this does not depend on the internal value |
| InputField.ShowToggle | src/components/InputField.tsx:96 | the password toggle appears iff it is enabled and the type prop is given as "password" |
| InputField.ShowError | src/components/InputField.tsx:107 | the error text appears iff the error prop is a non-empty string |
| InputField.ShowHelper | src/components/InputField.tsx:106-107 | helper text never shows together with error text, and one of the two shows iff either prop is non-empty |
| InputField.WrapperClass | src/components/InputField.tsx:68 | the dark theme adds exactly the class "text-white" to the wrapper; light adds nothing |
| InputField.MaskedIff | src/components/InputField.tsx:60 | the input is masked as a password iff its type is "password" and the toggle is not revealing it |
| InputField.ToggleMattersIffShown | src/components/InputField.tsx:60-99 | flipping the visibility flag changes the input type iff the toggle button is shown |
| InputField.TogglePassword | src/components/InputField.tsx:99 | a click flips the visibility flag and keeps the value |
| InputField.ToggleTwice | src/components/InputField.tsx:99 | two clicks on the toggle restore the state |
| InputField.HandleChange | src/components/InputField.tsx:62-65 | the internal value becomes the event value and the flag is kept; the event goes to `onChange` iff one is supplied |
| InputField.ChangeShowsValueIffUncontrolled | src/components/InputField.tsx:59-65 | after a change the field shows the typed value when it has no value prop; a supplied value prop is shown instead |
| InputField.Clear | src/components/InputField.tsx:90 | clearing empties the internal value and keeps the flag |
| InputField.ClearEffect | src/components/InputField.tsx:59-90 | clearing an uncontrolled field shows "" and hides the clear button; with a value prop, neither the shown value nor the button changes |
| InputField.Step | src/components/InputField.tsx:62-99 | typing stores the value; a clear click empties the value only while the clear button is rendered; a toggle click flips the flag iff the toggle is rendered; no event touches the other part of the state |
| InputField.Run | src/components/InputField.tsx:57-99 | after any run, the password is revealed iff the toggle is shown and was clicked an odd number of times (from hidden); typing and clearing never touch the flag |
| InputField.RunAppend | src/components/InputField.tsx:62-99 | running one more event applies that event's handler to the state reached |
| InputField.UncontrolledValue | src/components/InputField.tsx:56-90 | in an uncontrolled field the value after a run is the last typed value, or "" if a clear followed it on a clearable field |

## Left out

- Rendering: JSX, the Tailwind class tables `variants` and `sizes`, the icons,
  and the `disabled`, `invalid` and `loading` class toggles. Of the class
  strings, only the wrapper's theme class is modelled.
- React scheduling: batched `setState`, and handlers reading state from their
  closure. Each handler is one sequential transition on the current state.
- Events and the DOM. An event is its target's (id, value) pair, or just the
  value. A disabled input still accepts `Typed` events in the model. A click
  on the clear or toggle button counts only while that button is rendered.
- The `sortable` column flag has no behaviour. `console.log` in the page's
  `handleRowSelect` is output only. The page's `./components/ui/*` Button,
  Input and Label wrappers are not part of this model. The page does not use
  the InputField component, so that component is modelled on its own.
- Row ids and user ids are unbounded integers. JavaScript numbers lose
  precision above 2^53, and `includes` treats NaN specially; neither is
  modelled.
- `String(row[col.dataIndex])` is modelled for string-valued fields. A missing
  field shows "undefined"; numbers and other non-string values are not
  modelled.
