# Schedule C grid and credit-trade comment permissions

This project models two parts of the TFRS (Transportation Fuels Reporting
System) compliance application.

**The Schedule C editor** (`ScheduleCContainer.js`) is the spreadsheet in a
compliance report where a fuel supplier lists fuel used for exempt purposes.
The model covers:

- the grid of cells (two header rows, then data rows of seven columns);
- appending blank rows;
- the rules that run when the user edits Fuel Type, Fuel Class, Quantity or
  Expected Use;
- the projection of the grid into the record list that is published to the
  store;
- the three-way validation that styles a row from the server's validation
  messages;
- the read-write reload of the grid when the host hands it new records.

**The comment permissions** (`CreditTradeComment.py`) decide who may post,
read and edit comments on a credit transfer. The model covers:

- the decision table keyed by relationship, status, rescinded flag and
  privilege;
- how a user's relationship to a trade is resolved;
- the request-level check for a new comment;
- the object-level check for an existing one.

Layout:

- `support.dfy` (`Support`): `Option`, and `Find`, which returns the first
  index that satisfies a predicate (`Array.prototype.find`, a queryset's
  `first()`).
- `js_values.dfy` (`JsValues`): the JavaScript values the grid stores.
  Truthiness, `String()`, ASCII `toUpperCase`, `indexOf(pat) >= 0`, and the
  single-pass `replace(/pat/g, '')`.
- `schedule_c.dfy` (`ScheduleC`): cells, rows, new rows, the edit rules, and
  the published records.
- `schedule_c_validation.dfy` (`ScheduleCValidation`): `clearErrorColumns`
  and `_validate`. Each is a specification function on one row, paired with
  the method that performs its loops.
- `schedule_c_container.dfy` (`ScheduleCComponent`): the component as a
  class whose `grid` and `rowNumber` fields its methods update. It also
  holds the reload specification and `_gridStateToPayload`.
- `credit_trade_comment.dfy` (`CreditTradeCommentPermissions`): the
  permission class as pure functions.

Modelling choices:

- JavaScript `Number(x)` is a parameter `toNumber`. It returns `None` for
  NaN, and otherwise the canonical spelling of the number.
- A number stored in a cell is represented by that spelling.
- The class name of a cell is a string; a missing one is `""`.
- The `valueViewer` a cell renders with is one of three views: the value, a
  check mark, or a warning triangle.

The Expected Use rule compares the *typed* value with "Other"
(`ScheduleCContainer.js:358`), so typing `other` resolves to "Other" but
still clears the write-in cell; `ScheduleC.ExpectedUseEdit` states this.

## Model

| member | source | states |
|---|---|---|
| ScheduleC.NewRowsBlank | frontend/src/compliance_reporting/ScheduleCContainer.js:237-293 | every appended row is a data row carrying its number `first + k`, publishes an empty record, and its editable cells take the form's read-only flag |
| ScheduleC.NewRowIsDataRow | frontend/src/compliance_reporting/ScheduleCContainer.js:238-290 | a freshly added row is a data row: seven cells, none of whose class names carries more than one error marker |
| ScheduleC.AppendNewRows | frontend/src/compliance_reporting/ScheduleCContainer.js:237-293 | appending new rows to a well-shaped grid (two headers, then seven-cell rows) keeps it well shaped |
| ScheduleC.FuelTypeEdit | frontend/src/compliance_reporting/ScheduleCContainer.js:524-548 | the first fuel whose name matches ignoring case gives Fuel Type its canonical name; Fuel Class is preset exactly when that fuel has one class; Units becomes its unit or empty; no match clears all three; no other cell and no style changes |
| ScheduleC.FuelClassEdit | frontend/src/compliance_reporting/ScheduleCContainer.js:499-522 | the class is resolved among the classes of the fuel named in the row, ignoring case; an unknown fuel or class clears it; nothing else changes |
| ScheduleC.QuantityValue | frontend/src/compliance_reporting/ScheduleCContainer.js:338-344 | the stored quantity never holds a comma; it is empty or reads as a number; it is the comma-stripped input whenever that reads as a number, and empty whenever it does not |
| ScheduleC.QuantityValueIdempotent | frontend/src/compliance_reporting/ScheduleCContainer.js:338-344 | entering the stored quantity again stores the same value |
| ScheduleC.ExpectedUseEdit | frontend/src/compliance_reporting/ScheduleCContainer.js:346-368 | the first use matching ignoring case is stored, else empty; the write-in cell is emptied unless the typed value is exactly "Other", in which case it is untouched |
| ScheduleC.ChangeRow | frontend/src/compliance_reporting/ScheduleCContainer.js:325-368 | a change writes its value and runs the rule of its column (Fuel Type, Fuel Class, Quantity or Expected Use edit; any other column keeps the written value); only the columns that rule may touch change, and styles never do |
| ScheduleC.ApplyChangesFrame | frontend/src/compliance_reporting/ScheduleCContainer.js:313-369 | a batch keeps the grid's length; rows that no applied change names are unchanged; no cell's class, read-only flag or viewer changes (changes on component cells are skipped) |
| ScheduleC.KeepNonEmptyMembers | frontend/src/compliance_reporting/ScheduleCContainer.js:396-401 | the kept records are exactly the non-empty ones: every kept record is non-empty and a member, and every non-empty member is kept |
| ScheduleC.KeepNonEmptyAppend | frontend/src/compliance_reporting/ScheduleCContainer.js:385-402 | filtering distributes over concatenation, so the records keep the grid's row order |
| ScheduleC.PayloadDropsExactlyEmptyRows | frontend/src/compliance_reporting/ScheduleCContainer.js:380-402 | a row's record is published if and only if one of its four key fields is truthy |
| ScheduleC.PayloadAppendRow | frontend/src/compliance_reporting/ScheduleCContainer.js:380-402 | appending a row appends its record to the payload exactly when that record is non-empty |
| JsValues.RemoveAllIsSinglePass | frontend/src/compliance_reporting/ScheduleCContainer.js:74 | `replace(/error/g, '')` is a single pass: "errerroror" becomes "error", which still contains the marker |
| JsValues.RemoveCharGone | frontend/src/compliance_reporting/ScheduleCContainer.js:339 | stripping commas leaves no comma, and every other character still occurs |
| ScheduleCValidation.ErrorKeyColumn | frontend/src/compliance_reporting/ScheduleCContainer.js:425-451 | exactly the five error keys map to a column; each such column is an editable data column, neither the row number nor Units |
| ScheduleCValidation.ErrorKeyColumnInverse | frontend/src/compliance_reporting/ScheduleCContainer.js:425-451 | the key-to-column map and the column-to-key map are inverse, in both directions |
| ScheduleCValidation.MarkError | frontend/src/compliance_reporting/ScheduleCContainer.js:452-456 | after marking, the class name contains the marker; an unmarked name gains exactly " error"; a marked name is left as it is; at most one marker stays at most one |
| ScheduleCValidation.UnmarkedIsClean | frontend/src/compliance_reporting/ScheduleCContainer.js:66-77 | for a class name with at most one marker, removing the marker leaves no marker |
| ScheduleCValidation.UnmarkSuffix | frontend/src/compliance_reporting/ScheduleCContainer.js:66-77 | removing the marker from `b + " error"` gives `b + " "` when `b` has none |
| ScheduleCValidation.ClearMarkRoundTrip | frontend/src/compliance_reporting/ScheduleCContainer.js:66-77 | clearing an unmarked name changes nothing, and clearing a freshly marked name restores it up to one trailing space |
| ScheduleCValidation.ClearedRowSpec | frontend/src/compliance_reporting/ScheduleCContainer.js:66-98 | clearing keeps every value and read-only flag; it leaves no marker in any class; it shows the check mark exactly when the four key fields are truthy |
| ScheduleCValidation.ClearedRowIdempotent | frontend/src/compliance_reporting/ScheduleCContainer.js:66-98 | clearing a cleared row changes nothing |
| ScheduleCValidation.ClearErrorColumns | frontend/src/compliance_reporting/ScheduleCContainer.js:66-98 | the cell loop computes the cleared row |
| ScheduleCValidation.UnmarkKeysStep | frontend/src/compliance_reporting/ScheduleCContainer.js:427-433 | one step of the unmarking loop extends the processed prefix of the error keys by one key |
| ScheduleCValidation.UnmarkUnlistedColumns | frontend/src/compliance_reporting/ScheduleCContainer.js:427-433 | the loop over the error keys strips the marker from exactly the columns whose key the record does not list |
| ScheduleCValidation.MarkListedStep | frontend/src/compliance_reporting/ScheduleCContainer.js:449-463 | one step of the marking loop extends the processed prefix of the listed keys by one key |
| ScheduleCValidation.MarkListedColumns | frontend/src/compliance_reporting/ScheduleCContainer.js:449-463 | the loop over the listed keys marks exactly the columns of the known listed keys |
| ScheduleCValidation.StructuredRowSpec | frontend/src/compliance_reporting/ScheduleCContainer.js:419-463 | with a per-record key list, values are kept; an error-key column carries the marker if and only if its key is listed; the row shows the warning if and only if the list is non-empty; Units is untouched |
| ScheduleCValidation.ShowRecordFailures | frontend/src/compliance_reporting/ScheduleCContainer.js:419-463 | the unmark, row-number and mark steps in sequence compute the structured row |
| ScheduleCValidation.FlagRowNumber | frontend/src/compliance_reporting/ScheduleCContainer.js:476-490 | flagging keeps the value and read-only flag, shows the warning, and sets the class name to the marker when it was empty and to the name with " error" appended otherwise (unchanged when already marked), keeping at most one marker |
| ScheduleCValidation.FlagRowNumberIdempotent | frontend/src/compliance_reporting/ScheduleCContainer.js:476-490 | flagging an already flagged row number changes nothing, so duplicate messages flag once |
| ScheduleCValidation.UnstructuredRowSpec | frontend/src/compliance_reporting/ScheduleCContainer.js:464-493 | with a message list, values are kept; the data columns end unmarked; the row number is marked and shows the warning if and only if some duplicate message names the row's index |
| ScheduleCValidation.ShowDuplicateMessages | frontend/src/compliance_reporting/ScheduleCContainer.js:464-493 | the loop over the messages computes the unstructured row |
| ScheduleCValidation.ValidatedKeepsValues | frontend/src/compliance_reporting/ScheduleCContainer.js:411-497 | validation in any of its branches changes styles only: every value and read-only flag is kept, and the row stays a data row |
| ScheduleCValidation.Validate | frontend/src/compliance_reporting/ScheduleCContainer.js:411-497 | the method takes the branch of the specification: cleared when valid or when there are no Schedule C messages; structured when the record list reaches the row; unstructured for a message list; otherwise unchanged |
| ScheduleCComponent.UnitsOf | frontend/src/compliance_reporting/ScheduleCContainer.js:186-190 | Units comes from the first fuel whose name is exactly the record's fuel type, and is empty with no such fuel or no unit |
| ScheduleCComponent.Grown | frontend/src/compliance_reporting/ScheduleCContainer.js:170-172 | the grid grows to exactly the number of records when it is shorter, keeps its existing rows as a prefix, and stays well shaped |
| ScheduleCComponent.SyncedLoadedRow | frontend/src/compliance_reporting/ScheduleCContainer.js:174-195 | reloaded row `2 + i` stays a data row and publishes record `i` with its quantity read as a number; its Units cell is resolved again from the record's fuel type (`UnitsOf`); its write-in cell is read-only if and only if the use is not "Other" or the form is read-only |
| ScheduleCComponent.SyncedEmptiedRow | frontend/src/compliance_reporting/ScheduleCContainer.js:197-209 | a reloaded row past the records stays a data row, publishes nothing but nulls, and keeps its Units cell as it was |
| ScheduleCComponent.SyncedSpec | frontend/src/compliance_reporting/ScheduleCContainer.js:174-209 | after reload, row `2 + i` holds record `i` with its quantity read as a number and its Units resolved again from the record's fuel type (`UnitsOf`); its write-in cell is read-only if and only if the use is not "Other" or the form is read-only; every later row publishes only nulls and keeps its Units |
| ScheduleCComponent.SyncedPayload | frontend/src/compliance_reporting/ScheduleCContainer.js:168-209 | publishing a reloaded grid gives back the loaded records without the empty ones |
| ScheduleCComponent.KeepEmptyOnly | frontend/src/compliance_reporting/ScheduleCContainer.js:396-401 | a list of empty records publishes nothing |
| ScheduleCComponent.ApplyChangeBatch | frontend/src/compliance_reporting/ScheduleCContainer.js:314-369 | the loop over a change batch computes the batch applied in order, skipping changes on component cells |
| ScheduleCComponent.GridStateToPayload | frontend/src/compliance_reporting/ScheduleCContainer.js:380-409 | the loop publishes exactly the projection of the data rows with the empty records left out |
| ScheduleCComponent.LoadRecord | frontend/src/compliance_reporting/ScheduleCContainer.js:174-195 | one pass of the loading loop fills the row from the record, then validates it unless the host is validating |
| ScheduleCComponent.ZeroRow | frontend/src/compliance_reporting/ScheduleCContainer.js:198-209 | one pass of the emptying loop nulls the five fields, makes the write-in cell editable, then validates unless the host is validating |
| ScheduleCComponent.ScheduleCContainer.constructor | frontend/src/compliance_reporting/ScheduleCContainer.js:100-104 | the grid starts as the two header rows, and row numbering starts at 1 |
| ScheduleCComponent.ScheduleCContainer.AddRow | frontend/src/compliance_reporting/ScheduleCContainer.js:232-298 | the new rows are appended after the old grid, numbered on from the counter; the counter advances by their number; the grid stays well shaped and the counter stays one past the last row |
| ScheduleCComponent.ScheduleCContainer.HandleCellsChanged | frontend/src/compliance_reporting/ScheduleCContainer.js:313-378 | the new grid is the batch applied in order; the counter is unchanged; the published records are the payload of the new grid |
| ScheduleCComponent.ScheduleCContainer.LoadRecords | frontend/src/compliance_reporting/ScheduleCContainer.js:174-195 | rows `2 .. 2 + n` take the loaded and validated records; all other rows are unchanged |
| ScheduleCComponent.ScheduleCContainer.ZeroRemainingRows | frontend/src/compliance_reporting/ScheduleCContainer.js:197-209 | every row from `first` on is emptied and validated against its grid index; earlier rows are unchanged |
| ScheduleCComponent.ScheduleCContainer.ReceiveProps | frontend/src/compliance_reporting/ScheduleCContainer.js:156-214 | with no source, nothing changes; otherwise the grid becomes the grown grid with the source's records loaded, and the component invariant is kept |
| CreditTradeCommentPermissions.AllowedRules | backend/api/permissions/CreditTradeComment.py:38-73 | the decision table, stated as rules: each relationship's allowed statuses, rescinded flags and privilege, and everything else denied |
| CreditTradeCommentPermissions.NoRelationshipDenied | backend/api/permissions/CreditTradeComment.py:38-40 | a user with no relationship to the trade is always denied |
| CreditTradeCommentPermissions.PartiesNeverPrivileged | backend/api/permissions/CreditTradeComment.py:42-51 | the initiator and the respondent may never post privileged comments |
| CreditTradeCommentPermissions.OpeningCommentsNotRescinded | backend/api/permissions/CreditTradeComment.py:42-48 | the initiator may comment on a draft and the respondent on a submitted trade only while it is not rescinded |
| CreditTradeCommentPermissions.DirectorOnlyOnReviewed | backend/api/permissions/CreditTradeComment.py:66-73 | a director may comment only on a recommended or not-recommended trade |
| CreditTradeCommentPermissions.RelationshipPrecedence | backend/api/permissions/CreditTradeComment.py:82-94 | the last matching test wins: director over analyst, analyst over respondent, respondent over initiator, and no match gives no relationship |
| CreditTradeCommentPermissions.UserCanComment | backend/api/permissions/CreditTradeComment.py:75-101 | an allowed user has a relationship; a privileged comment needs a government user; a non-government user must belong to a party of the trade |
| CreditTradeCommentPermissions.HasPermission | backend/api/permissions/CreditTradeComment.py:103-128 | non-POST requests pass; a POST missing either field, or naming no trade of the user's organization, is refused; an allowed POST has a matching trade on which the user may comment |
| CreditTradeCommentPermissions.HasPermissionUsesFirstMatch | backend/api/permissions/CreditTradeComment.py:118-128 | the decision is taken on the first trade whose id matches |
| CreditTradeCommentPermissions.HasObjectPermission | backend/api/permissions/CreditTradeComment.py:130-159 | the author may always act; a colleague in the same organization may read; any other allowed request comes from a government role |
| CreditTradeCommentPermissions.GovernmentAccess | backend/api/permissions/CreditTradeComment.py:144-156 | for a government role, a privileged comment needs the view permission to be read and the edit permission to be written; a non-privileged one is open |

## Left out

- Rendering is not modelled: JSX, the `valueViewer` functions, the value formatting with thousands separators, `SchedulesPage` and `render`.
- The dropdown `dataEditor`, `mapping`, `attributes` and the `getOptions` closures of new cells are not modelled. The fuel-type options filtered by compliance period and `_getFuelClasses` only feed the dropdowns.
- The Redux wiring (`mapStateToProps`, `updateScheduleState`) is not modelled. The published record list is returned to the caller instead.
- `componentDidMount`, `loadInitialState`, `addHeaders`' totals and the read-only snapshot branch of `componentWillReceiveProps` are not modelled. They are lifecycle and display paths outside the grid logic.
- `Number()` parsing is a parameter, not a definition; number formatting is not modelled.
- Only ASCII letters are upper-cased; Unicode case mapping is not modelled.
- The `SCHEDULE_C` column indices and `SCHEDULE_C_ERROR_KEYS` come from `constants/schedules/scheduleColumns.js`, which is not part of this model. The columns follow the order `_addRow` builds them in. The error keys are taken as the record fields `expectedUse`, `fuelClass`, `fuelType`, `quantity` and `rationale`, on their columns.
- Object keys inherited from `Object.prototype` (such as `constructor`) passing the `errorKey in SCHEDULE_C_ERROR_KEYS` test are not modelled.
- An Expected Use edit while the uses are still being fetched is not modelled: `getOptions` then returns `false` and `.find` throws.
- A read-write source without `records` is not modelled: `records.length` throws there.
- Validation messages that are both structured and a list are not modelled: a list is taken to have no `records`.
- The `null` read-only flag that emptied rows receive is modelled as `false`, since only its truthiness is read.
- In-place mutation and aliasing of cell objects are not modelled: rows are values that each step replaces. Line 431 writes into a cell shared with the previous state.
- `ScheduleCComponent.ScheduleCContainer.ReceiveProps` is modelled as written on two points. Emptied rows keep their Units value. They are validated against their grid index, while loaded rows use their record index.
- The credit-trade query `get_organization_credit_trades(...).filter(id=...)` is a parameter: the organization's trades, in query order.
- `has_perm` is membership in the user's permission set, and Django model equality is equality of ids.
- A `privileged_access` value that is not a boolean is not modelled: the request field is taken to be `true` or `false`.
- `CreditTradeCommentPermissions.HasObjectPermission`: control never falls out of the government branch of `has_object_permission` to the final `return False` (line 159), because the branch's two method tests are complementary; that fall-through is not modelled separately.
