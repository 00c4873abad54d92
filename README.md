# Alumnos: list screens and data access object

This project models three small pieces of logic from an Android teaching
repository that manages a table of students ("alumnos").

- **The alumnos list screen of PR027** (`ListaAlumnosFragment`). A list of
  records shown by an adapter, a set of selected positions, and a contextual
  action mode that is on while a selection is being made. Clicks toggle the
  selection or ask for an edit. A swipe deletes one record. The contextual
  menu deletes every selected record. Loader results replace the data.
  Module `AlumnosList`, class `ListaAlumnosFragment`.
- **The alumnos screen of PR101** (`MainActivity`). A plain list of names in
  a multiple-choice list view. The checked names can be collected and
  removed, the contextual title counts them, and the whole list can be
  copied into an array for the export service. Module `AlumnosActivity`,
  class `MainActivity`.
- **The data access object of PR196** (`DAO`). CRUD over the single table
  `alumnos`, modelled as a map from `_ID` to the other columns. There is
  also the cursor-to-list conversion and the lazily created single
  instance. Module `Persistence`, classes `Dao` and `DaoSingleton`.

Two shared modules sit beside them:

- `Alumnos` holds the `Alumno` record, its table row, and the name order of
  `ORDER BY NOMBRE`. That order is SQLite's BINARY collation: code points,
  with a proper prefix first.
- `Texts` holds the decimal rendering of the counts that both contextual
  titles show.

Assumptions about code outside the model:

- **PR027's own `Dao` and its `AlumnosAdapter` are not part of this model.**
  - The PR196 `Dao` model stands in for the store; its `deleteAlumno` has
    the same contract, true iff a row was deleted.
  - The adapter is represented by its data. Its `toggleSelection` adds or
    removes the position.
  - Its `removeItem` drops the row; selected positions after it move down by
    one.
  - Its `removeSelectedItems` drops exactly the selected rows and fires a
    range-removed notification when rows go.
  - Its `clearSelections` empties the selection.
  - Its `getSelectedItemsPositions` lists exactly the selected positions, in
    some order.
  - Its `swapData` keeps only the selected positions that still exist, and
    fires no range notification. `swapData(null)` empties the list.
- `ActionMode.finish()` calls `onDestroyActionMode` synchronously.
- The adapter data observer of PR027 rechecks the "new alumno" label after every
  range insertion or removal, so a removal is followed by `checkAdapterIsEmpty`.
- In PR101, `setItemChecked(position, false)` keeps the key in the
  checked-positions array with a false flag.
- In PR101, `btnExportar` starts enabled. Its initial state comes from a
  layout that is not part of this model.
- `Alumno.toContentValues` holds exactly the NOMBRE, CURSO, TELEFONO and
  DIRECCION columns and not `_ID`, so an insert receives a fresh id. The
  `Alumno` class is not part of this model.

The code keeps these behaviours:

- A swipe removes the row only after the store reports the delete. Nothing
  is removed beforehand, so nothing is rolled back.
- `deleteAlumno` sends no change notification, because that call is
  commented out.
- `createAlumno` and `updateAlumno` notify unconditionally, even when
  nothing was inserted or updated.

## Model

| member | source | states |
|---|---|---|
| Texts.NatToString | PR027-SQLiteDAO/app/src/main/java/es/iessaladillo/pedrojoya/pr027/fragmentos/ListaAlumnosFragment.java:249 | A count renders as a non-empty run of decimal digits with no leading zero, as Java's string concatenation renders an int. |
| Texts.ParseNatToString | PR027-SQLiteDAO/app/src/main/java/es/iessaladillo/pedrojoya/pr027/fragmentos/ListaAlumnosFragment.java:249 | Reading the rendered digits back gives the count: the rendering loses nothing. |
| Texts.NatToStringInjective | PR101-ActividadONotificacion/app/src/main/java/es/iessaladillo/pedrojoya/pr101/MainActivity.java:153-154 | Different counts render differently. |
| Texts.LeadingCountUnique | PR101-ActividadONotificacion/app/src/main/java/es/iessaladillo/pedrojoya/pr101/MainActivity.java:153-154 | A count rendered at the head of a title, followed by a non-digit, is recovered from the whole title together with the rest of the title. |
| Alumnos.CursorToAlumno | PR196-SQLiteDAORxJava/app/src/main/java/es/iessaladillo/pedrojoya/pr196/bd/DAO.java:220-236 | The record read from a row has that row's `_ID` and exactly its NOMBRE, CURSO, TELEFONO and DIRECCION values. |
| Alumnos.AlumnoRowRoundTrip | PR196-SQLiteDAORxJava/app/src/main/java/es/iessaladillo/pedrojoya/pr196/bd/DAO.java:69-71 | Storing a record (its id as the key, `toContentValues` as the columns) and reading that row back gives the same record. |
| Alumnos.NameLeTotal | PR196-SQLiteDAORxJava/app/src/main/java/es/iessaladillo/pedrojoya/pr196/bd/DAO.java:174-175 | Any two names are comparable in the ORDER BY NOMBRE collation. |
| Alumnos.NameLeTransitive | PR196-SQLiteDAORxJava/app/src/main/java/es/iessaladillo/pedrojoya/pr196/bd/DAO.java:174-175 | The name order is transitive. |
| Alumnos.NameLeAntisymmetric | PR196-SQLiteDAORxJava/app/src/main/java/es/iessaladillo/pedrojoya/pr196/bd/DAO.java:174-175 | Names that sort both ways are equal, so the order is a total order on names. |
| Alumnos.InsertByNameElements | PR196-SQLiteDAORxJava/app/src/main/java/es/iessaladillo/pedrojoya/pr196/bd/DAO.java:174-175 | Placing a row into name order adds exactly that row: the length grows by one, and the multiset and the members are the old ones plus the row. |
| Alumnos.InsertByNameSorted | PR196-SQLiteDAORxJava/app/src/main/java/es/iessaladillo/pedrojoya/pr196/bd/DAO.java:174-175 | Placing a row into a name-ordered result keeps it name-ordered. |
| Alumnos.InsertByNameDistinct | PR196-SQLiteDAORxJava/app/src/main/java/es/iessaladillo/pedrojoya/pr196/bd/DAO.java:174-175 | Placing a row with a new `_ID` keeps the `_ID`s distinct. |
| Persistence.PointQueryAgreesWithListing | PR196-SQLiteDAORxJava/app/src/main/java/es/iessaladillo/pedrojoya/pr196/bd/DAO.java:142-144 | The query on `_ID = id` yields at most one row, and exactly the rows of the full name-ordered listing that carry that id. |
| Persistence.QueryAlumnoAsWritten | PR196-SQLiteDAORxJava/app/src/main/java/es/iessaladillo/pedrojoya/pr196/bd/DAO.java:146-155 | As written: a null cursor gives null, and an empty cursor makes the row read throw. |
| Persistence.AlumnoFromCursor | PR196-SQLiteDAORxJava/app/src/main/java/es/iessaladillo/pedrojoya/pr196/bd/DAO.java:136-137 | As the comment promises: no record exactly when the cursor is null or empty; otherwise the record of the first row. |
| Persistence.QueryMissingIdRaises | PR196-SQLiteDAORxJava/app/src/main/java/es/iessaladillo/pedrojoya/pr196/bd/DAO.java:146-151 | For an id the table does not hold, the code as written throws, while the promised result is null. |
| Persistence.QueryPresentIdAgrees | PR196-SQLiteDAORxJava/app/src/main/java/es/iessaladillo/pedrojoya/pr196/bd/DAO.java:146-151 | For an id the table holds, the code as written and the promised behaviour both return that row's record. |
| Persistence.CursorToAlumnos | PR196-SQLiteDAORxJava/app/src/main/java/es/iessaladillo/pedrojoya/pr196/bd/DAO.java:204-215 | The row-by-row loop yields exactly one record per cursor row, in cursor order, each carrying that row's id and columns. |
| Persistence.AlumnosOfCursor | PR196-SQLiteDAORxJava/app/src/main/java/es/iessaladillo/pedrojoya/pr196/bd/DAO.java:181-186 | A null cursor gives the empty list; otherwise one record per row in row order. |
| Persistence.Dao.constructor | PR196-SQLiteDAORxJava/app/src/main/java/es/iessaladillo/pedrojoya/pr196/bd/DAO.java:33-37 | A Dao over the database as found on opening: the given table, the next id to assign, and no notifications sent yet. |
| Persistence.Dao.CreateAlumno | PR196-SQLiteDAORxJava/app/src/main/java/es/iessaladillo/pedrojoya/pr196/bd/DAO.java:61-79 | Returns -1 exactly when the insert fails, leaving the table unchanged. Otherwise returns a fresh id of at least 1, and the table gains that row with the record's columns. One notification is sent in both cases. |
| Persistence.Dao.DeleteAlumno | PR196-SQLiteDAORxJava/app/src/main/java/es/iessaladillo/pedrojoya/pr196/bd/DAO.java:90-106 | True iff a row with that id existed. Afterwards no row has that id and every other row is unchanged. No notification is sent. |
| Persistence.Dao.UpdateAlumno | PR196-SQLiteDAORxJava/app/src/main/java/es/iessaladillo/pedrojoya/pr196/bd/DAO.java:108-125 | True iff a row with the record's id existed, in which case that row takes the record's columns; otherwise the table is unchanged. One notification is sent either way. |
| Persistence.Dao.QueryAlumno | PR196-SQLiteDAORxJava/app/src/main/java/es/iessaladillo/pedrojoya/pr196/bd/DAO.java:136-156 | No record exactly when the id is absent; otherwise the record with that id and its stored columns (the corrected behaviour, see Findings). |
| Persistence.Dao.QueryAllAlumnos | PR196-SQLiteDAORxJava/app/src/main/java/es/iessaladillo/pedrojoya/pr196/bd/DAO.java:167-176 | Every table row appears exactly once with its stored columns, nothing else appears, and the rows are ordered by NOMBRE. |
| Persistence.Dao.GetAllAlumnos | PR196-SQLiteDAORxJava/app/src/main/java/es/iessaladillo/pedrojoya/pr196/bd/DAO.java:178-193 | Every record returned is a table row, every table row is returned, ids are distinct, and names are in order. |
| Persistence.DaoSingleton.constructor | PR196-SQLiteDAORxJava/app/src/main/java/es/iessaladillo/pedrojoya/pr196/bd/DAO.java:27 | The static instance starts out null. |
| Persistence.DaoSingleton.GetInstance | PR196-SQLiteDAORxJava/app/src/main/java/es/iessaladillo/pedrojoya/pr196/bd/DAO.java:39-47 | The first call creates a fresh Dao and stores it; every later call returns that same object. |
| AlumnosList.SelectionTitleInjective | PR027-SQLiteDAO/app/src/main/java/es/iessaladillo/pedrojoya/pr027/fragmentos/ListaAlumnosFragment.java:249 | The title "selected / total" determines both counts. |
| AlumnosList.Toggled | PR027-SQLiteDAO/app/src/main/java/es/iessaladillo/pedrojoya/pr027/fragmentos/ListaAlumnosFragment.java:247 | Toggling flips the membership of the given position and of no other. |
| AlumnosList.ToggledTwice | PR027-SQLiteDAO/app/src/main/java/es/iessaladillo/pedrojoya/pr027/fragmentos/ListaAlumnosFragment.java:247 | Toggling the same position twice restores the selection. |
| AlumnosList.RemoveAt | PR027-SQLiteDAO/app/src/main/java/es/iessaladillo/pedrojoya/pr027/fragmentos/ListaAlumnosFragment.java:219 | Removing a row shortens the list by one; the rows before it stay in place and the rows after it move up by one. |
| AlumnosList.DropPositionsLength | PR027-SQLiteDAO/app/src/main/java/es/iessaladillo/pedrojoya/pr027/fragmentos/ListaAlumnosFragment.java:208 | Dropping the selected rows shortens the list by the number of selected positions that lie in it. |
| AlumnosList.DropPositionsKeeps | PR027-SQLiteDAO/app/src/main/java/es/iessaladillo/pedrojoya/pr027/fragmentos/ListaAlumnosFragment.java:208 | Every unselected row is kept, and every kept row comes from an unselected position. |
| AlumnosList.DropPositionsNone | PR027-SQLiteDAO/app/src/main/java/es/iessaladillo/pedrojoya/pr027/fragmentos/ListaAlumnosFragment.java:208 | With no selected position inside the list, nothing is dropped. |
| AlumnosList.RemoveAtIsDropPositions | PR027-SQLiteDAO/app/src/main/java/es/iessaladillo/pedrojoya/pr027/fragmentos/ListaAlumnosFragment.java:208-219 | Removing a row by swipe equals dropping the selection that holds only that row. |
| AlumnosList.ShiftedSelectionSameRecords | PR027-SQLiteDAO/app/src/main/java/es/iessaladillo/pedrojoya/pr027/fragmentos/ListaAlumnosFragment.java:219 | After a removal, each other selected position moves to a position holding the same record. Nothing else becomes selected, and the selection stays inside the shorter list. |
| AlumnosList.VisitedIdsAreSelectedIds | PR027-SQLiteDAO/app/src/main/java/es/iessaladillo/pedrojoya/pr027/fragmentos/ListaAlumnosFragment.java:199-206 | Visiting the adapter's list of selected positions, in whatever order and with whatever repetition, names exactly the ids of the selected records. |
| AlumnosList.ListaAlumnosFragment.constructor | PR027-SQLiteDAO/app/src/main/java/es/iessaladillo/pedrojoya/pr027/fragmentos/ListaAlumnosFragment.java:93-149 | The screen after `initVistas`: a new empty adapter, nothing selected, no action mode, and the first label check has made the "new alumno" label visible. |
| AlumnosList.ListaAlumnosFragment.CheckAdapterIsEmpty | PR027-SQLiteDAO/app/src/main/java/es/iessaladillo/pedrojoya/pr027/fragmentos/ListaAlumnosFragment.java:152-155 | The "new alumno" label is visible exactly when the list is empty; nothing else changes. |
| AlumnosList.ListaAlumnosFragment.OnDestroyActionMode | PR027-SQLiteDAO/app/src/main/java/es/iessaladillo/pedrojoya/pr027/fragmentos/ListaAlumnosFragment.java:290-295 | The selection becomes empty and the action mode is off. |
| AlumnosList.ListaAlumnosFragment.ToggleSelection | PR027-SQLiteDAO/app/src/main/java/es/iessaladillo/pedrojoya/pr027/fragmentos/ListaAlumnosFragment.java:245-255 | The position is toggled, the title is the new selected count over the item count, and the mode stays on iff something remains selected. |
| AlumnosList.ListaAlumnosFragment.OnItemClick | PR027-SQLiteDAO/app/src/main/java/es/iessaladillo/pedrojoya/pr027/fragmentos/ListaAlumnosFragment.java:223-231 | In action mode: toggles the position and requests no edit; the title shows the new counts and the mode stays on iff something remains selected. Otherwise: requests the edit of that record's id and leaves the selection, mode and title unchanged. |
| AlumnosList.ListaAlumnosFragment.OnItemLongClick | PR027-SQLiteDAO/app/src/main/java/es/iessaladillo/pedrojoya/pr027/fragmentos/ListaAlumnosFragment.java:233-242 | Outside action mode: turns the mode on with exactly that position selected. Inside: only toggles it. The title shows the new counts, and the mode stays on iff something remains selected. |
| AlumnosList.ListaAlumnosFragment.OnActionItemClicked | PR027-SQLiteDAO/app/src/main/java/es/iessaladillo/pedrojoya/pr027/fragmentos/ListaAlumnosFragment.java:272-288 | Confirmation is requested iff the delete item is pressed with at least one row selected; the event is always reported as handled. |
| AlumnosList.ListaAlumnosFragment.OnStop | PR027-SQLiteDAO/app/src/main/java/es/iessaladillo/pedrojoya/pr027/fragmentos/ListaAlumnosFragment.java:297-304 | Afterwards no action mode is running and nothing is selected; the list is untouched. |
| AlumnosList.ListaAlumnosFragment.EliminarAlumno | PR027-SQLiteDAO/app/src/main/java/es/iessaladillo/pedrojoya/pr027/fragmentos/ListaAlumnosFragment.java:213-221 | The store deletes the record's id, with no notification. The row leaves the list, and the selection shifts, iff the store reports the delete; the label is then rechecked. Otherwise the list and the selection are unchanged. |
| AlumnosList.ListaAlumnosFragment.EliminarAlumnosSeleccionados | PR027-SQLiteDAO/app/src/main/java/es/iessaladillo/pedrojoya/pr027/fragmentos/ListaAlumnosFragment.java:197-211 | The store loses exactly the ids of the selected records, with no notification. The list loses exactly the selected rows, whatever the deletes answered. The mode ends with an empty selection. |
| AlumnosList.ListaAlumnosFragment.OnLoadFinished | PR027-SQLiteDAO/app/src/main/java/es/iessaladillo/pedrojoya/pr027/fragmentos/ListaAlumnosFragment.java:328-335 | A non-null cursor replaces the list with one record per row in row order and the label is rechecked. A null cursor changes nothing. |
| AlumnosList.ListaAlumnosFragment.CargarAlumnos | PR027-SQLiteDAO/app/src/main/java/es/iessaladillo/pedrojoya/pr027/fragmentos/ListaAlumnosFragment.java:175-179 | The list becomes every table record, ids distinct, in name order, each with its stored columns. Only the selected positions that still exist stay selected, and the label is not rechecked. |
| AlumnosList.ListaAlumnosFragment.OnLoaderReset | PR027-SQLiteDAO/app/src/main/java/es/iessaladillo/pedrojoya/pr027/fragmentos/ListaAlumnosFragment.java:337-340 | The list and the selection become empty and the label is not rechecked. |
| AlumnosActivity.CheckedPositionsMembers | PR101-ActividadONotificacion/app/src/main/java/es/iessaladillo/pedrojoya/pr101/MainActivity.java:184-187 | A position is collected exactly when some entry of the checked-positions array has that key with a true flag. |
| AlumnosActivity.CheckedPositionsIncreasing | PR101-ActividadONotificacion/app/src/main/java/es/iessaladillo/pedrojoya/pr101/MainActivity.java:184-187 | Collected positions follow the array's key order, strictly increasing. |
| AlumnosActivity.CheckedUpToBounded | PR101-ActividadONotificacion/app/src/main/java/es/iessaladillo/pedrojoya/pr101/MainActivity.java:193 | When every checked key is a row of the list, every collected position is. |
| AlumnosActivity.UncheckedKeys | PR101-ActividadONotificacion/app/src/main/java/es/iessaladillo/pedrojoya/pr101/MainActivity.java:189-191 | Unchecking keeps every key in order and clears every flag, so no position is collected afterwards. |
| AlumnosActivity.ItemsAtIndex | PR101-ActividadONotificacion/app/src/main/java/es/iessaladillo/pedrojoya/pr101/MainActivity.java:193 | The k-th name collected is the name at the k-th collected position. |
| AlumnosActivity.ItemsAtSubMultiset | PR101-ActividadONotificacion/app/src/main/java/es/iessaladillo/pedrojoya/pr101/MainActivity.java:193 | Names collected at strictly increasing positions form a sub-multiset of the list. |
| AlumnosActivity.RemoveFirstSpec | PR101-ActividadONotificacion/app/src/main/java/es/iessaladillo/pedrojoya/pr101/MainActivity.java:204 | `ArrayAdapter.remove` takes out one occurrence of a name the list holds and leaves a list without it unchanged. |
| AlumnosActivity.RemoveEachCount | PR101-ActividadONotificacion/app/src/main/java/es/iessaladillo/pedrojoya/pr101/MainActivity.java:203-205 | Removing names the list holds, with multiplicity, removes one item per name and takes out exactly those names. |
| AlumnosActivity.RemoveCheckedCount | PR101-ActividadONotificacion/app/src/main/java/es/iessaladillo/pedrojoya/pr101/MainActivity.java:137 | Removing the checked names shortens the list by the number of checked rows and takes out exactly those names. |
| AlumnosActivity.CheckedTitleInjective | PR101-ActividadONotificacion/app/src/main/java/es/iessaladillo/pedrojoya/pr101/MainActivity.java:153-154 | For a fixed word `de`, the title "checked de count" determines both counts. |
| AlumnosActivity.MainActivity.constructor | PR101-ActividadONotificacion/app/src/main/java/es/iessaladillo/pedrojoya/pr101/MainActivity.java:100-107 | The list holds the names of the string-array resource, nothing is checked, export is enabled and the menu has not been invalidated. |
| AlumnosActivity.MainActivity.GetElementosSeleccionados | PR101-ActividadONotificacion/app/src/main/java/es/iessaladillo/pedrojoya/pr101/MainActivity.java:178-198 | Returns the names at exactly the checked positions, in key order. With `uncheck`, every flag is false afterwards and the keys are kept; without it, the check states are untouched. The list is unchanged. |
| AlumnosActivity.MainActivity.EliminarAlumnos | PR101-ActividadONotificacion/app/src/main/java/es/iessaladillo/pedrojoya/pr101/MainActivity.java:201-213 | One first-occurrence removal per given name, in order. The options menu is invalidated once iff the list ends empty. |
| AlumnosActivity.MainActivity.Exportar | PR101-ActividadONotificacion/app/src/main/java/es/iessaladillo/pedrojoya/pr101/MainActivity.java:161-174 | No array when the list is empty; otherwise a fresh array equal to the list, element by element. |
| AlumnosActivity.MainActivity.OnActionItemClicked | PR101-ActividadONotificacion/app/src/main/java/es/iessaladillo/pedrojoya/pr101/MainActivity.java:133-145 | The delete item removes the checked names, shortening the list by their number, and leaves nothing checked. Export becomes enabled iff names remain, the menu is invalidated iff the list ends empty, and the event is handled. Other items change nothing and are not handled. The contextual title is untouched either way. |
| AlumnosActivity.MainActivity.OnItemCheckedStateChanged | PR101-ActividadONotificacion/app/src/main/java/es/iessaladillo/pedrojoya/pr101/MainActivity.java:150-155 | The title is the number of checked rows, the word `de` and the list length; nothing else changes. |

## Left out

- Opening and closing the database, and SQL text. The table is an abstract
  map, and whether an insert fails is a parameter (the database's answer).
- The RxJava wrappers (`createAlumnoRx`, `queryAlumnoRx`, `getAllAlumnosRx`,
  `updateAlumnoRx`), the loader, and the `LoaderManager` callbacks' threading.
  These are asynchronous library code. `onLoadFinished` and `onLoaderReset`
  are modelled as plain calls.
- Layout inflation, RecyclerView setup, gesture detection, FAB hide/show,
  scroll listeners, menu inflation and saved instance state. These are UI
  plumbing.
- In PR101: the broadcast receiver, the snackbar, the intent that opens the
  exported file, and the start of the export service. This is OS
  interaction. `Exportar` returns the array that would be sent.
- `onAttach` and `onDestroyView` in PR027. The first only stores the
  listener. The second closes the database, which this model never opens or
  closes.
- AlumnosList.ListaAlumnosFragment.EliminarAlumnosSeleccionados: requires the
  action mode to be running, as the confirmation is only asked for from
  inside it (lines 277-282). Without a running mode the deletes and the row
  removal still happen, and then `mActionMode.finish()` (line 210) throws a
  NullPointerException. That crash path is not modelled.
- The framework side effects of `setItemChecked` in PR101: the check-state
  callback and the automatic end of the mode at zero checked rows. These
  belong to the ListView, which is not part of this model.
- `NO_POSITION` from `getAdapterPosition` during a swipe. Positions are
  required to be rows of the list, as the adapter only reports bound rows.
- Persistence.Dao.QueryAllAlumnos: the relative order of rows with equal
  names is left open. Their number is not stated as the table's size; it
  follows from the stated properties (each row once, distinct ids, nothing
  else) but is not proved.
- Ids are unbounded integers. SQLite's 64-bit rowid limit is not modelled.
- AlumnosActivity.MainActivity.GetElementosSeleccionados: requires every
  checked key to be a row of the list. Otherwise `getItemAtPosition` would
  fail, and that failure is not modelled.
- AlumnosActivity.MainActivity.EliminarAlumnos: removal is by value. With
  repeated names an earlier equal name may leave instead of the checked
  row. The resulting multiset of names is the intended one
  (RemoveCheckedCount), but the order on screen may differ.

## Findings

| source | as written | input that shows it | evidently intended | confidence | as-written member | corrected member |
|---|---|---|---|---|---|---|
| PR196-SQLiteDAORxJava/app/src/main/java/es/iessaladillo/pedrojoya/pr196/bd/DAO.java:146-151 | `queryAlumno` calls `moveToFirst()` without checking its result, then reads the row under the cursor. | An id that no row has: the query returns an empty cursor, and reading its columns throws. | Return null when no row has the id, as the method's comment (lines 136-137) says. | medium, not executed | Persistence.QueryAlumnoAsWritten (shown by Persistence.QueryMissingIdRaises) | Persistence.AlumnoFromCursor (used by Persistence.Dao.QueryAlumno) |
