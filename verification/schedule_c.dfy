/** The Schedule C grid: its cells, rows and reference data, the rules that
    run when the user edits a cell, and the projection of the grid into the
    record list that is published to the store. */
module ScheduleC {
  import opened Support
  import opened JsValues

  // Column positions of a data row (RowNumber, FuelType, FuelClass, Quantity,
  // Units, ExpectedUse, ExpectedUseOther), in the order the rows are built.
  const RowNumberCol := 0
  const FuelTypeCol := 1
  const FuelClassCol := 2
  const QuantityCol := 3
  const UnitsCol := 4
  const ExpectedUseCol := 5
  const ExpectedUseOtherCol := 6
  const Columns := 7

  /** What a cell shows in place of its value: the value itself, a check
      mark, or a warning triangle. */
  datatype Viewer = ShowValue | ShowCheck | ShowWarning

  /** A cell; a missing `className` is the empty string. */
  datatype Cell = Cell(value: Value, className: string, readOnly: bool, viewer: Viewer)

  type Row = seq<Cell>

  /** An approved fuel from the reference data. */
  datatype Fuel = Fuel(name: string, fuelClasses: seq<string>, unitOfMeasure: Option<string>)

  /** A Schedule C record, as the store holds it and as the grid publishes it. */
  datatype Record = Record(expectedUse: Value, fuelType: Value, fuelClass: Value, quantity: Value, rationale: Value)

  /** `validationMessages.scheduleC`: absent, a per-record list of the keys
      that failed (an object with `records`; an object without them behaves
      as an empty list), or a flat list of messages. */
  datatype SheetMessages =
    | Missing
    | Structured(records: seq<seq<string>>)
    | Unstructured(messages: seq<string>)

  /** The inputs the component reads from its host. `messages` is `None` when
      `validationMessages` is null; `scheduleState` and `report` are the
      records of `scheduleState.scheduleC` and `complianceReport.scheduleC`,
      `None` when that sheet is absent; `expectedUses` holds the descriptions
      of the expected uses that have been loaded. */
  datatype Props = Props(
    readOnly: bool,
    valid: bool,
    validating: bool,
    messages: Option<SheetMessages>,
    scheduleState: Option<seq<Record>>,
    report: Option<seq<Record>>,
    approvedFuels: seq<Fuel>,
    expectedUses: seq<string>)

  /** One entry of a change batch reported by the spreadsheet. */
  datatype Change = Change(component: bool, row: nat, col: nat, value: string)

  // ---------------------------------------------------------------------
  // Class names and the error marker

  const ErrorMark := "error"

  predicate Clean(className: string)
  {
    !Contains(className, ErrorMark)
  }

  /** A class name carries at most one error marker: it has none, it is the
      marker alone, or it is a clean name followed by " error". */
  predicate SingleMark(className: string)
  {
    || Clean(className)
    || className == ErrorMark
    || (|className| >= 6 && className[|className| - 6..] == " error" && Clean(className[..|className| - 6]))
  }

  /** Every data row has seven cells, each with at most one error marker. */
  predicate DataRow(row: Row)
  {
    |row| == Columns && forall c :: 0 <= c < |row| ==> SingleMark(row[c].className)
  }

  // ---------------------------------------------------------------------
  // The grid

  function HeaderRow0(): (row: Row)
  {
    [ Cell(Undefined, "row-number", true, ShowValue),
      Cell(Text("FUEL IDENTIFICATION AND QUANTITY"), "", true, ShowValue),
      Cell(Text("Expected Use"), "expected-use", true, ShowValue),
      Cell(Text("If other, write in expected use:"), "other", true, ShowValue) ]
  }

  function HeaderRow1(): (row: Row)
  {
    [ Cell(Undefined, "", true, ShowValue),
      Cell(Text("Fuel Type"), "fuel-type", true, ShowValue),
      Cell(Text("Fuel Class"), "fuel-class", true, ShowValue),
      Cell(Text("Quantity of Fuel Supplied"), "quantity", true, ShowValue),
      Cell(Text("Units"), "units", true, ShowValue) ]
  }

  /** The two header rows, then data rows. */
  predicate WellShaped(grid: seq<Row>)
  {
    && |grid| >= 2
    && grid[0] == HeaderRow0()
    && grid[1] == HeaderRow1()
    && forall i :: 2 <= i < |grid| ==> DataRow(grid[i])
  }

  // The class names of a new row's cells.
  const RowNumberClass := "row-number"
  const DropdownClass := "text dropdown-indicator"
  const NumberClass := "number"
  const TextClass := "text"

  /** A blank data row numbered `number` whose cells carry the given class
      names; the editable cells take the form's read-only flag. */
  function BlankRow(number: nat, readOnly: bool, rowNumberClass: string, dropdownClass: string,
                    numberClass: string, textClass: string): Row
  {
    [ Cell(Num(NatToString(number)), rowNumberClass, true, ShowValue),
      Cell(Undefined, dropdownClass, readOnly, ShowValue),
      Cell(Undefined, dropdownClass, readOnly, ShowValue),
      Cell(Undefined, numberClass, readOnly, ShowValue),
      Cell(Undefined, "", true, ShowValue),
      Cell(Undefined, dropdownClass, readOnly, ShowValue),
      Cell(Undefined, textClass, true, ShowValue) ]
  }

  /** The row the grid appends for a new record. */
  function NewRow(number: nat, readOnly: bool): (row: Row)
  {
    BlankRow(number, readOnly, RowNumberClass, DropdownClass, NumberClass, TextClass)
  }

  /** No two consecutive letters of `s` are both 'r'. */
  predicate NoDoubledR(s: string)
  {
    forall i :: 0 <= i < |s| - 1 ==> !(s[i] == 'r' && s[i + 1] == 'r')
  }

  /** The marker holds "rr", so a name without a doubled 'r' carries none. */
  lemma {:induction false} NoDoubledRIsClean(s: string)
    requires NoDoubledR(s)
    ensures Clean(s)
  {
    if |s| >= 3 {
      assert !(s[1] == 'r' && s[2] == 'r');
    }
    if |s| > 0 {
      assert NoDoubledR(s[1..]) by {
        forall i | 0 <= i < |s[1..]| - 1
          ensures !(s[1..][i] == 'r' && s[1..][i + 1] == 'r')
        {
          assert s[1..][i] == s[i + 1] && s[1..][i + 1] == s[i + 2];
        }
      }
      NoDoubledRIsClean(s[1..]);
    }
  }

  /** A row of seven cells whose class names carry no error marker is a
      data row. */
  lemma CleanRowIsDataRow(row: Row)
    requires |row| == Columns
    requires forall c :: 0 <= c < |row| ==> Clean(row[c].className)
    ensures DataRow(row)
  {
  }

  /** A blank row whose class names have no doubled 'r' is a data row. */
  lemma BlankRowIsDataRow(number: nat, readOnly: bool, rowNumberClass: string, dropdownClass: string,
                          numberClass: string, textClass: string)
    requires NoDoubledR(rowNumberClass) && NoDoubledR(dropdownClass) && NoDoubledR(numberClass) && NoDoubledR(textClass)
    ensures DataRow(BlankRow(number, readOnly, rowNumberClass, dropdownClass, numberClass, textClass))
  {
    NoDoubledRIsClean(rowNumberClass);
    NoDoubledRIsClean(dropdownClass);
    NoDoubledRIsClean(numberClass);
    NoDoubledRIsClean(textClass);
    ShorterAbsent("", "error");
    CleanRowIsDataRow(BlankRow(number, readOnly, rowNumberClass, dropdownClass, numberClass, textClass));
  }

  /** A new row is a data row: seven cells, no error marker. */
  lemma NewRowIsDataRow(number: nat, readOnly: bool)
    ensures DataRow(NewRow(number, readOnly))
  {
    assert NoDoubledR(RowNumberClass) && NoDoubledR(DropdownClass) && NoDoubledR(NumberClass) && NoDoubledR(TextClass);
    BlankRowIsDataRow(number, readOnly, RowNumberClass, DropdownClass, NumberClass, TextClass);
  }

  /** `n` blank rows numbered `first`, `first + 1`, ... */
  function NewRows(first: nat, n: nat, readOnly: bool): (rows: seq<Row>)
    ensures |rows| == n
    ensures forall k :: 0 <= k < n ==> rows[k] == NewRow(first + k, readOnly)
  {
    seq(n, k requires 0 <= k < n => NewRow(first + k, readOnly))
  }

  /** Every new row is a data row carrying its number, with an empty record
      and its editable cells taking the form's read-only flag. */
  lemma NewRowsBlank(first: nat, n: nat, readOnly: bool)
    ensures forall k :: 0 <= k < n ==> DataRow(NewRows(first, n, readOnly)[k])
    ensures forall k :: 0 <= k < n ==> NewRows(first, n, readOnly)[k][RowNumberCol].value == Num(NatToString(first + k))
    ensures forall k :: 0 <= k < n ==> EmptyRecord(RowRecord(NewRows(first, n, readOnly)[k]))
    ensures forall k, c :: 0 <= k < n && c in {FuelTypeCol, FuelClassCol, QuantityCol, ExpectedUseCol} ==>
      NewRows(first, n, readOnly)[k][c].readOnly == readOnly
  {
    forall k | 0 <= k < n
      ensures DataRow(NewRows(first, n, readOnly)[k])
      ensures NewRows(first, n, readOnly)[k][RowNumberCol].value == Num(NatToString(first + k))
      ensures EmptyRecord(RowRecord(NewRows(first, n, readOnly)[k]))
    {
      NewRowIsDataRow(first + k, readOnly);
      BlankRowValues(first + k, readOnly, RowNumberClass, DropdownClass, NumberClass, TextClass);
    }
  }

  /** The values and read-only flags of a blank row. */
  lemma BlankRowValues(number: nat, readOnly: bool, rowNumberClass: string, dropdownClass: string,
                       numberClass: string, textClass: string)
    ensures var row := BlankRow(number, readOnly, rowNumberClass, dropdownClass, numberClass, textClass);
      && row[RowNumberCol].value == Num(NatToString(number))
      && EmptyRecord(RowRecord(row))
      && row[FuelTypeCol].readOnly == row[FuelClassCol].readOnly == row[QuantityCol].readOnly
         == row[ExpectedUseCol].readOnly == readOnly
  {
  }

  /** One more new row is the old ones and the next row. */
  lemma NewRowsSnoc(first: nat, n: nat, readOnly: bool)
    ensures NewRows(first, n + 1, readOnly) == NewRows(first, n, readOnly) + [NewRow(first + n, readOnly)]
  {
    var a := NewRows(first, n + 1, readOnly);
    var b := NewRows(first, n, readOnly) + [NewRow(first + n, readOnly)];
    assert |a| == |b|;
    forall k | 0 <= k < |a|
      ensures a[k] == b[k]
    {
    }
  }

  /** Appending a data row to a well-shaped grid keeps it well shaped. */
  lemma AppendDataRow(grid: seq<Row>, row: Row)
    requires WellShaped(grid) && DataRow(row)
    ensures WellShaped(grid + [row])
  {
    var g := grid + [row];
    assert g[0] == grid[0] && g[1] == grid[1];
    forall i | 2 <= i < |g|
      ensures DataRow(g[i])
    {
    }
  }

  /** Appending new rows to a well-shaped grid keeps it well shaped. */
  lemma AppendNewRows(grid: seq<Row>, first: nat, n: nat, readOnly: bool)
    requires WellShaped(grid)
    ensures WellShaped(grid + NewRows(first, n, readOnly))
  {
    var g := grid + NewRows(first, n, readOnly);
    forall i | 2 <= i < |g|
      ensures DataRow(g[i])
    {
      if i >= |grid| {
        NewRowIsDataRow(first + (i - |grid|), readOnly);
      }
    }
  }

  // ---------------------------------------------------------------------
  // Frames

  /** `a` and `b` have the same cells outside the columns `cols`. */
  predicate SameExcept(a: Row, b: Row, cols: set<int>)
  {
    |a| == |b| && forall c :: 0 <= c < |a| && c !in cols ==> a[c] == b[c]
  }

  /** `a` and `b` differ at most in the values of their cells. */
  predicate SameStyle(a: Row, b: Row)
  {
    && |a| == |b|
    && forall c :: 0 <= c < |a| ==>
         a[c].className == b[c].className && a[c].readOnly == b[c].readOnly && a[c].viewer == b[c].viewer
  }

  /** `a` and `b` differ at most in the class names and viewers of their
      cells. */
  predicate SameValues(a: Row, b: Row)
  {
    |a| == |b| && forall c :: 0 <= c < |a| ==> a[c].value == b[c].value && a[c].readOnly == b[c].readOnly
  }

  function SetValue(row: Row, col: nat, v: Value): (r: Row)
    requires col < |row|
  {
    row[col := row[col].(value := v)]
  }

  // ---------------------------------------------------------------------
  // Edit rules

  predicate NameMatches(fuel: Fuel, v: string)
  {
    SameIgnoringCase(fuel.name, v)
  }

  /** Is `i` the first approved fuel whose name equals `v` ignoring case? */
  predicate FirstFuelMatch(fuels: seq<Fuel>, v: string, i: int)
  {
    0 <= i < |fuels| && NameMatches(fuels[i], v) && forall j :: 0 <= j < i ==> !NameMatches(fuels[j], v)
  }

  /** Is `k` the first of `names` equal to `v` ignoring case? */
  predicate FirstNameMatch(names: seq<string>, v: string, k: int)
  {
    0 <= k < |names| && SameIgnoringCase(names[k], v) && forall j :: 0 <= j < k ==> !SameIgnoringCase(names[j], v)
  }

  /** Editing Fuel Type: the cell takes the canonical name of the matched
      fuel; Fuel Class is preset when that fuel has a single class; Units
      follows the fuel's unit of measure. An unknown fuel clears all three. */
  function FuelTypeEdit(row: Row, v: string, fuels: seq<Fuel>): (r: Row)
    requires |row| == Columns
    ensures SameExcept(row, r, {FuelTypeCol, FuelClassCol, UnitsCol}) && SameStyle(row, r)
    ensures (forall j :: 0 <= j < |fuels| ==> !NameMatches(fuels[j], v)) ==>
      r[FuelTypeCol].value == Text("") && r[FuelClassCol].value == Text("") && r[UnitsCol].value == Text("")
    ensures forall i :: FirstFuelMatch(fuels, v, i) ==>
      && r[FuelTypeCol].value == Text(fuels[i].name)
      && r[FuelClassCol].value == (if |fuels[i].fuelClasses| == 1 then Text(fuels[i].fuelClasses[0]) else Text(""))
      && r[UnitsCol].value == (if fuels[i].unitOfMeasure.Some? then Text(fuels[i].unitOfMeasure.value) else Text(""))
  {
    var selected := Find(fuels, f => NameMatches(f, v));
    var r1 := SetValue(row, FuelTypeCol, if selected.Some? then Text(fuels[selected.value].name) else Text(""));
    var r2 := SetValue(r1, FuelClassCol,
      if selected.Some? && |fuels[selected.value].fuelClasses| == 1
      then Text(fuels[selected.value].fuelClasses[0]) else Text(""));
    SetValue(r2, UnitsCol,
      if selected.Some? && fuels[selected.value].unitOfMeasure.Some?
      then Text(fuels[selected.value].unitOfMeasure.value) else Text(""))
  }

  /** Editing Fuel Class: the class is looked up among the classes of the
      fuel named in the row's Fuel Type cell; anything else clears it. */
  function FuelClassEdit(row: Row, v: string, fuels: seq<Fuel>): (r: Row)
    requires |row| == Columns
    ensures SameExcept(row, r, {FuelClassCol}) && SameStyle(row, r)
    ensures (forall j :: 0 <= j < |fuels| ==> !NameMatches(fuels[j], JsString(row[FuelTypeCol].value))) ==>
      r[FuelClassCol].value == Text("")
    ensures forall i :: FirstFuelMatch(fuels, JsString(row[FuelTypeCol].value), i) ==>
      && (forall k :: FirstNameMatch(fuels[i].fuelClasses, v, k) ==> r[FuelClassCol].value == Text(fuels[i].fuelClasses[k]))
      && ((forall k :: 0 <= k < |fuels[i].fuelClasses| ==> !SameIgnoringCase(fuels[i].fuelClasses[k], v)) ==>
            r[FuelClassCol].value == Text(""))
  {
    var fuelType := JsString(row[FuelTypeCol].value);
    var selected := Find(fuels, f => NameMatches(f, fuelType));
    if selected.None? then
      SetValue(row, FuelClassCol, Text(""))
    else
      assert forall i :: FirstFuelMatch(fuels, fuelType, i) ==> i == selected.value;
      var classes := fuels[selected.value].fuelClasses;
      var selectedClass := Find(classes, c => SameIgnoringCase(c, v));
      SetValue(row, FuelClassCol, if selectedClass.Some? then Text(classes[selectedClass.value]) else Text(""))
  }

  /** Editing Quantity: the thousands separators are stripped, and the result
      is kept only when it reads as a number. */
  function QuantityValue(v: string, toNumber: NumberConversion): (r: Value)
    ensures r.Text? && ',' !in r.s
    ensures r.s == "" || toNumber(r).Some?
    ensures toNumber(Text(RemoveAll(v, ","))).Some? ==> r == Text(RemoveAll(v, ","))
    ensures toNumber(Text(RemoveAll(v, ","))).None? ==> r == Text("")
  {
    var cleaned := RemoveAll(v, ",");
    RemoveCharGone(v, ',');
    if toNumber(Text(cleaned)).None? then Text("") else Text(cleaned)
  }

  /** Entering the stored quantity again stores the same value. */
  lemma QuantityValueIdempotent(v: string, toNumber: NumberConversion)
    ensures QuantityValue(QuantityValue(v, toNumber).s, toNumber) == QuantityValue(v, toNumber)
  {
    var r := QuantityValue(v, toNumber);
    ContainsChar(r.s, ',');
    RemoveAllAbsent(r.s, ",");
  }

  /** Editing Expected Use: the matched description, or empty; the write-in
      cell is cleared unless the typed value is exactly "Other". */
  function ExpectedUseEdit(row: Row, v: string, uses: seq<string>): (r: Row)
    requires |row| == Columns
    ensures SameExcept(row, r, {ExpectedUseCol, ExpectedUseOtherCol}) && SameStyle(row, r)
    ensures forall i :: FirstNameMatch(uses, v, i) ==> r[ExpectedUseCol].value == Text(uses[i])
    ensures (forall j :: 0 <= j < |uses| ==> !SameIgnoringCase(uses[j], v)) ==> r[ExpectedUseCol].value == Text("")
    ensures v != "Other" ==> r[ExpectedUseOtherCol].value == Text("")
    ensures v == "Other" ==> r[ExpectedUseOtherCol] == row[ExpectedUseOtherCol]
  {
    var selected := Find(uses, d => SameIgnoringCase(d, v));
    var r1 := SetValue(row, ExpectedUseCol, if selected.Some? then Text(uses[selected.value]) else Text(""));
    if v != "Other" then SetValue(r1, ExpectedUseOtherCol, Text("")) else r1
  }

  /** The columns an edit of column `col` may change. */
  function Affected(col: int): (cols: set<int>)
  {
    if col == FuelTypeCol then {FuelTypeCol, FuelClassCol, UnitsCol}
    else if col == ExpectedUseCol then {ExpectedUseCol, ExpectedUseOtherCol}
    else {col}
  }

  /** One change applied to its row: the value is written, then the rule of
      the edited column runs. */
  function ChangeRow(row: Row, change: Change, props: Props, toNumber: NumberConversion): (r: Row)
    requires |row| == Columns && change.col < Columns
    ensures SameExcept(row, r, Affected(change.col)) && SameStyle(row, r)
    ensures change.col !in {FuelTypeCol, FuelClassCol, QuantityCol, ExpectedUseCol} ==>
      r[change.col].value == Text(change.value)
    ensures change.col == QuantityCol ==> r[QuantityCol].value == QuantityValue(change.value, toNumber)
    ensures change.col == FuelTypeCol ==>
      r == FuelTypeEdit(SetValue(row, FuelTypeCol, Text(change.value)), change.value, props.approvedFuels)
    ensures change.col == FuelClassCol ==>
      r == FuelClassEdit(SetValue(row, FuelClassCol, Text(change.value)), change.value, props.approvedFuels)
    ensures change.col == ExpectedUseCol ==>
      r == ExpectedUseEdit(SetValue(row, ExpectedUseCol, Text(change.value)), change.value, props.expectedUses)
  {
    var r0 := SetValue(row, change.col, Text(change.value));
    if change.col == FuelTypeCol then FuelTypeEdit(r0, change.value, props.approvedFuels)
    else if change.col == FuelClassCol then FuelClassEdit(r0, change.value, props.approvedFuels)
    else if change.col == QuantityCol then SetValue(r0, QuantityCol, QuantityValue(change.value, toNumber))
    else if change.col == ExpectedUseCol then ExpectedUseEdit(r0, change.value, props.expectedUses)
    else r0
  }

  /** The spreadsheet reports changes only for cells of data rows. */
  predicate ChangesInRange(changes: seq<Change>, rows: nat)
  {
    forall k :: 0 <= k < |changes| && !changes[k].component ==> 2 <= changes[k].row < rows && changes[k].col < Columns
  }

  function ApplyChange(grid: seq<Row>, change: Change, props: Props, toNumber: NumberConversion): (r: seq<Row>)
    requires WellShaped(grid)
    requires change.component || (2 <= change.row < |grid| && change.col < Columns)
    ensures WellShaped(r) && |r| == |grid|
  {
    if change.component then grid
    else
      var row := ChangeRow(grid[change.row], change, props, toNumber);
      assert DataRow(row) by {
        assert SameStyle(grid[change.row], row);
      }
      grid[change.row := row]
  }

  /** A change batch, applied in order; changes on a cell that holds a
      component are skipped. */
  function ApplyChanges(grid: seq<Row>, changes: seq<Change>, props: Props, toNumber: NumberConversion): (r: seq<Row>)
    requires WellShaped(grid) && ChangesInRange(changes, |grid|)
    ensures WellShaped(r) && |r| == |grid|
    decreases |changes|
  {
    if changes == [] then grid
    else
      var last := changes[|changes| - 1];
      assert ChangesInRange(changes[..|changes| - 1], |grid|);
      ApplyChange(ApplyChanges(grid, changes[..|changes| - 1], props, toNumber), last, props, toNumber)
  }

  /** Is row `i` named by some change of the batch that is not skipped? */
  predicate Targeted(changes: seq<Change>, i: int)
  {
    exists k :: 0 <= k < |changes| && !changes[k].component && changes[k].row == i
  }

  /** A batch leaves the grid's length alone, leaves every row no change
      names untouched, and never alters a cell's style, read-only flag or
      viewer. */
  lemma {:induction false} ApplyChangesFrame(grid: seq<Row>, changes: seq<Change>, props: Props, toNumber: NumberConversion)
    requires WellShaped(grid) && ChangesInRange(changes, |grid|)
    ensures |ApplyChanges(grid, changes, props, toNumber)| == |grid|
    ensures forall i :: 0 <= i < |grid| && !Targeted(changes, i) ==> ApplyChanges(grid, changes, props, toNumber)[i] == grid[i]
    ensures forall i :: 0 <= i < |grid| ==> SameStyle(grid[i], ApplyChanges(grid, changes, props, toNumber)[i])
    decreases |changes|
  {
    if changes != [] {
      var init := changes[..|changes| - 1];
      var last := changes[|changes| - 1];
      assert ChangesInRange(init, |grid|);
      ApplyChangesFrame(grid, init, props, toNumber);
      var mid := ApplyChanges(grid, init, props, toNumber);
      forall i | 0 <= i < |grid| && !Targeted(changes, i)
        ensures ApplyChanges(grid, changes, props, toNumber)[i] == grid[i]
      {
        assert forall k :: 0 <= k < |init| ==> init[k] == changes[k];
        assert !Targeted(init, i);
      }
      forall i | 0 <= i < |grid|
        ensures SameStyle(grid[i], ApplyChanges(grid, changes, props, toNumber)[i])
      {
        assert SameStyle(grid[i], mid[i]);
      }
    }
  }

  // ---------------------------------------------------------------------
  // Payload

  /** The record a data row publishes (Units is not part of it). */
  function RowRecord(row: Row): (rec: Record)
    requires |row| == Columns
  {
    Record(row[ExpectedUseCol].value, row[FuelTypeCol].value, row[FuelClassCol].value,
           row[QuantityCol].value, row[ExpectedUseOtherCol].value)
  }

  /** A record with no expected use, fuel class, fuel type or quantity. */
  predicate EmptyRecord(rec: Record)
  {
    !(Truthy(rec.expectedUse) || Truthy(rec.fuelClass) || Truthy(rec.fuelType) || Truthy(rec.quantity))
  }

  /** The records of the data rows, in grid order. */
  function DataRecords(grid: seq<Row>): (recs: seq<Record>)
    requires WellShaped(grid)
    ensures |recs| == |grid| - 2
    ensures forall i :: 0 <= i < |recs| ==> recs[i] == RowRecord(grid[i + 2])
  {
    seq(|grid| - 2, i requires 0 <= i < |grid| - 2 => RowRecord(grid[i + 2]))
  }

  /** `recs` without its empty records, in order. */
  function KeepNonEmpty(recs: seq<Record>): (kept: seq<Record>)
  {
    if recs == [] then []
    else
      var last := recs[|recs| - 1];
      KeepNonEmpty(recs[..|recs| - 1]) + (if EmptyRecord(last) then [] else [last])
  }

  /** The record list published after every change batch. */
  function Payload(grid: seq<Row>): (recs: seq<Record>)
    requires WellShaped(grid)
  {
    KeepNonEmpty(DataRecords(grid))
  }

  /** A record is kept exactly when it is not empty. */
  lemma {:induction false} KeepNonEmptyMembers(recs: seq<Record>)
    ensures forall x :: x in KeepNonEmpty(recs) <==> x in recs && !EmptyRecord(x)
  {
    if recs != [] {
      KeepNonEmptyMembers(recs[..|recs| - 1]);
      assert recs == recs[..|recs| - 1] + [recs[|recs| - 1]];
    }
  }

  /** Filtering keeps the order: it distributes over concatenation. */
  lemma {:induction false} KeepNonEmptyAppend(a: seq<Record>, b: seq<Record>)
    ensures KeepNonEmpty(a + b) == KeepNonEmpty(a) + KeepNonEmpty(b)
    decreases |b|
  {
    if b == [] {
      assert a + b == a;
    } else {
      var b' := b[..|b| - 1];
      assert (a + b)[..|a + b| - 1] == a + b';
      assert (a + b)[|a + b| - 1] == b[|b| - 1];
      KeepNonEmptyAppend(a, b');
    }
  }

  /** The payload never holds an empty record, and every non-empty data row
      is published. */
  lemma PayloadDropsExactlyEmptyRows(grid: seq<Row>)
    requires WellShaped(grid)
    ensures forall x :: x in Payload(grid) ==> !EmptyRecord(x)
    ensures forall i :: 2 <= i < |grid| && !EmptyRecord(RowRecord(grid[i])) ==> RowRecord(grid[i]) in Payload(grid)
  {
    KeepNonEmptyMembers(DataRecords(grid));
    forall i | 2 <= i < |grid| && !EmptyRecord(RowRecord(grid[i]))
      ensures RowRecord(grid[i]) in Payload(grid)
    {
      assert DataRecords(grid)[i - 2] == RowRecord(grid[i]);
    }
  }

  /** Adding a row at the bottom adds its record at the end of the payload,
      unless the row is empty. */
  lemma PayloadAppendRow(grid: seq<Row>, row: Row)
    requires WellShaped(grid) && DataRow(row)
    ensures WellShaped(grid + [row])
    ensures Payload(grid + [row]) == Payload(grid) + (if EmptyRecord(RowRecord(row)) then [] else [RowRecord(row)])
  {
    var g := grid + [row];
    assert DataRecords(g) == DataRecords(grid) + [RowRecord(row)];
    KeepNonEmptyAppend(DataRecords(grid), [RowRecord(row)]);
    assert KeepNonEmpty([RowRecord(row)]) == KeepNonEmpty([]) + (if EmptyRecord(RowRecord(row)) then [] else [RowRecord(row)]);
  }
}
