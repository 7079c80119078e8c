/** The Schedule C page component: the grid it keeps in its state, and what
    it does when rows are added, when cells are edited and when the host
    hands it new properties. */
module ScheduleCComponent {
  import opened Support
  import opened JsValues
  import opened ScheduleC
  import opened ScheduleCValidation

  // ---------------------------------------------------------------------
  // Loading records into the grid

  /** The quantity a loaded record shows: the number it reads as, or empty
      when it does not read as a number. */
  function LoadedQuantity(quantity: Value, toNumber: NumberConversion): (v: Value)
    ensures toNumber(quantity).Some? ==> v == Num(toNumber(quantity).value)
    ensures toNumber(quantity).None? ==> v == Text("")
  {
    match toNumber(quantity)
    case Some(d) => Num(d)
    case None => Text("")
  }

  /** A record as the grid holds it once loaded. */
  function Loaded(rec: Record, toNumber: NumberConversion): (r: Record)
  {
    rec.(quantity := LoadedQuantity(rec.quantity, toNumber))
  }

  function LoadedRecords(records: seq<Record>, toNumber: NumberConversion): (r: seq<Record>)
    ensures |r| == |records|
    ensures forall i :: 0 <= i < |records| ==> r[i] == Loaded(records[i], toNumber)
  {
    seq(|records|, i requires 0 <= i < |records| => Loaded(records[i], toNumber))
  }

  /** The unit of measure of the first approved fuel whose name is exactly
      the record's fuel type, or empty. */
  function UnitsOf(fuelType: Value, fuels: seq<Fuel>): (v: Value)
    ensures forall i ::
      (0 <= i < |fuels| && Text(fuels[i].name) == fuelType && forall j :: 0 <= j < i ==> Text(fuels[j].name) != fuelType) ==>
      v == (if fuels[i].unitOfMeasure.Some? then Text(fuels[i].unitOfMeasure.value) else Text(""))
    ensures (forall j :: 0 <= j < |fuels| ==> Text(fuels[j].name) != fuelType) ==> v == Text("")
  {
    var selected := Find(fuels, (f: Fuel) => Text(f.name) == fuelType);
    if selected.Some? && fuels[selected.value].unitOfMeasure.Some?
    then Text(fuels[selected.value].unitOfMeasure.value) else Text("")
  }

  /** Record `i` of `records` written into its row, before validation. The
      write-in cell is editable only when the expected use is "Other" and
      the next properties are not read-only. */
  function FilledRow(row: Row, rec: Record, next: Props, current: Props, toNumber: NumberConversion): (r: Row)
    requires |row| == Columns
    ensures |r| == Columns
  {
    row[FuelTypeCol := row[FuelTypeCol].(value := rec.fuelType)]
       [FuelClassCol := row[FuelClassCol].(value := rec.fuelClass)]
       [ExpectedUseCol := row[ExpectedUseCol].(value := rec.expectedUse)]
       [ExpectedUseOtherCol := row[ExpectedUseOtherCol].(value := rec.rationale,
                                                         readOnly := rec.expectedUse != Text("Other") || next.readOnly)]
       [QuantityCol := row[QuantityCol].(value := LoadedQuantity(rec.quantity, toNumber))]
       [UnitsCol := row[UnitsCol].(value := UnitsOf(rec.fuelType, current.approvedFuels))]
  }

  /** A row past the end of the records: emptied (its units are kept) and
      its write-in cell made editable. */
  function ZeroedRow(row: Row): (r: Row)
    requires |row| == Columns
    ensures |r| == Columns
  {
    row[FuelTypeCol := row[FuelTypeCol].(value := Null)]
       [FuelClassCol := row[FuelClassCol].(value := Null)]
       [ExpectedUseCol := row[ExpectedUseCol].(value := Null)]
       [ExpectedUseOtherCol := row[ExpectedUseOtherCol].(value := Null, readOnly := false)]
       [QuantityCol := row[QuantityCol].(value := Null)]
  }

  /** Loading writes values and read-only flags only, so a data row stays
      one. */
  lemma FilledKeepsStyle(row: Row, rec: Record, next: Props, current: Props, toNumber: NumberConversion)
    requires DataRow(row)
    ensures DataRow(FilledRow(row, rec, next, current, toNumber))
  {
    var f := FilledRow(row, rec, next, current, toNumber);
    forall c | 0 <= c < Columns
      ensures f[c].className == row[c].className
    {
    }
  }

  /** Emptying writes values and read-only flags only, so a data row stays
      one. */
  lemma ZeroedKeepsStyle(row: Row)
    requires DataRow(row)
    ensures DataRow(ZeroedRow(row))
  {
    var z := ZeroedRow(row);
    forall c | 0 <= c < Columns
      ensures z[c].className == row[c].className
    {
    }
  }

  /** Validation runs unless the host is in the middle of validating. */
  function MaybeValidated(row: Row, rowIndex: nat, current: Props, toNumber: NumberConversion): (r: Row)
    requires |row| == Columns
    ensures |r| == Columns
  {
    if current.validating then row else Validated(row, rowIndex, current, toNumber)
  }

  /** The grid grown, when needed, to hold `n` data rows. */
  function Grown(grid: seq<Row>, rowNumber: nat, n: nat, readOnly: bool): (g: seq<Row>)
    requires WellShaped(grid)
    ensures WellShaped(g)
    ensures |g| == if |grid| - 2 < n then n + 2 else |grid|
    ensures g[..|grid|] == grid
  {
    if |grid| - 2 < n then
      var extra := NewRows(rowNumber, n - (|grid| - 2), readOnly);
      AppendNewRows(grid, rowNumber, n - (|grid| - 2), readOnly);
      PrefixOfAppend(grid, extra);
      grid + extra
    else
      PrefixOfAppend(grid, []);
      assert grid + [] == grid;
      grid
  }

  lemma PrefixOfAppend(a: seq<Row>, b: seq<Row>)
    ensures |a + b| == |a| + |b|
    ensures (a + b)[..|a|] == a
  {
  }

  /** The grid once `records` are loaded into it: row `2 + i` holds record
      `i`, validated against the record's own index; every later row is
      emptied and validated against its grid index. */
  function Synced(grown: seq<Row>, records: seq<Record>, current: Props, next: Props, toNumber: NumberConversion): (g: seq<Row>)
    requires WellShaped(grown) && |records| + 2 <= |grown|
    ensures |g| == |grown|
  {
    seq(|grown|, j requires 0 <= j < |grown| =>
      if j < 2 then grown[j]
      else if j - 2 < |records| then MaybeValidated(FilledRow(grown[j], records[j - 2], next, current, toNumber), j - 2, current, toNumber)
      else MaybeValidated(ZeroedRow(grown[j]), j, current, toNumber))
  }

  /** Where the records come from: the schedule state the host is about to
      hand over when it already holds one, the saved report otherwise. */
  function SyncSource(current: Props, next: Props): (source: Option<seq<Record>>)
  {
    if current.scheduleState.Some? then next.scheduleState else current.report
  }

  /** The record a filled row publishes is the loaded record, and its
      write-in cell is read-only unless the use is "Other" and the form is
      editable; an emptied row publishes nothing but nulls. */
  lemma FilledAndZeroedRecords(row: Row, rec: Record, next: Props, current: Props, toNumber: NumberConversion)
    requires |row| == Columns
    ensures RowRecord(FilledRow(row, rec, next, current, toNumber)) == Loaded(rec, toNumber)
    ensures FilledRow(row, rec, next, current, toNumber)[ExpectedUseOtherCol].readOnly
            == (rec.expectedUse != Text("Other") || next.readOnly)
    ensures RowRecord(ZeroedRow(row)) == Record(Null, Null, Null, Null, Null)
    ensures FilledRow(row, rec, next, current, toNumber)[UnitsCol].value == UnitsOf(rec.fuelType, current.approvedFuels)
    ensures ZeroedRow(row)[UnitsCol].value == row[UnitsCol].value
  {
  }

  /** Validation, run or skipped, leaves a data row publishing the same
      record with the same write-in read-only flag. */
  lemma ValidatedRecord(row: Row, rowIndex: nat, current: Props, toNumber: NumberConversion)
    requires DataRow(row)
    ensures DataRow(MaybeValidated(row, rowIndex, current, toNumber))
    ensures RowRecord(MaybeValidated(row, rowIndex, current, toNumber)) == RowRecord(row)
    ensures MaybeValidated(row, rowIndex, current, toNumber)[ExpectedUseOtherCol].readOnly == row[ExpectedUseOtherCol].readOnly
    ensures MaybeValidated(row, rowIndex, current, toNumber)[UnitsCol].value == row[UnitsCol].value
  {
    if !current.validating {
      ValidatedKeepsValues(row, rowIndex, current, toNumber);
    }
  }

  /** Row `2 + i` of the loaded grid is a data row publishing the loaded
      record `i`, its Units resolved again from the record's fuel type; its
      write-in cell is read-only unless the use is "Other" and the form is
      editable. */
  lemma SyncedLoadedRow(grown: seq<Row>, records: seq<Record>, current: Props, next: Props, toNumber: NumberConversion, i: nat)
    requires WellShaped(grown) && |records| + 2 <= |grown| && i < |records|
    ensures DataRow(Synced(grown, records, current, next, toNumber)[i + 2])
    ensures RowRecord(Synced(grown, records, current, next, toNumber)[i + 2]) == Loaded(records[i], toNumber)
    ensures Synced(grown, records, current, next, toNumber)[i + 2][ExpectedUseOtherCol].readOnly <==>
      (records[i].expectedUse != Text("Other") || next.readOnly)
    ensures Synced(grown, records, current, next, toNumber)[i + 2][UnitsCol].value ==
      UnitsOf(records[i].fuelType, current.approvedFuels)
  {
    var f := FilledRow(grown[i + 2], records[i], next, current, toNumber);
    FilledKeepsStyle(grown[i + 2], records[i], next, current, toNumber);
    FilledAndZeroedRecords(grown[i + 2], records[i], next, current, toNumber);
    ValidatedRecord(f, i, current, toNumber);
    assert Synced(grown, records, current, next, toNumber)[i + 2] == MaybeValidated(f, i, current, toNumber);
  }

  /** A row of the loaded grid past the records is a data row publishing
      nothing but nulls; its Units cell is left as it was. */
  lemma SyncedEmptiedRow(grown: seq<Row>, records: seq<Record>, current: Props, next: Props, toNumber: NumberConversion, j: nat)
    requires WellShaped(grown) && |records| + 2 <= j < |grown|
    ensures DataRow(Synced(grown, records, current, next, toNumber)[j])
    ensures RowRecord(Synced(grown, records, current, next, toNumber)[j]) == Record(Null, Null, Null, Null, Null)
    ensures Synced(grown, records, current, next, toNumber)[j][UnitsCol].value == grown[j][UnitsCol].value
  {
    var z := ZeroedRow(grown[j]);
    var nulls := Record(Null, Null, Null, Null, Null);
    ZeroedKeepsStyle(grown[j]);
    FilledAndZeroedRecords(grown[j], nulls, next, current, toNumber);
    ValidatedRecord(z, j, current, toNumber);
    assert Synced(grown, records, current, next, toNumber)[j] == MaybeValidated(z, j, current, toNumber);
  }

  /** Loading keeps the grid well shaped; row `2 + i` shows record `i`, its
      quantity read as a number and its Units resolved again from the
      record's fuel type; the write-in cell of a loaded row is
      editable exactly when its expected use is "Other" and the form is not
      read-only; every later row is empty. */
  lemma SyncedSpec(grown: seq<Row>, records: seq<Record>, current: Props, next: Props, toNumber: NumberConversion)
    requires WellShaped(grown) && |records| + 2 <= |grown|
    ensures WellShaped(Synced(grown, records, current, next, toNumber))
    ensures forall i :: 0 <= i < |records| ==>
      RowRecord(Synced(grown, records, current, next, toNumber)[i + 2]) == Loaded(records[i], toNumber)
    ensures forall i :: 0 <= i < |records| ==>
      (Synced(grown, records, current, next, toNumber)[i + 2][ExpectedUseOtherCol].readOnly <==>
       (records[i].expectedUse != Text("Other") || next.readOnly))
    ensures forall i :: 0 <= i < |records| ==>
      Synced(grown, records, current, next, toNumber)[i + 2][UnitsCol].value == UnitsOf(records[i].fuelType, current.approvedFuels)
    ensures forall j :: |records| + 2 <= j < |grown| ==>
      RowRecord(Synced(grown, records, current, next, toNumber)[j]) == Record(Null, Null, Null, Null, Null)
    ensures forall j :: |records| + 2 <= j < |grown| ==>
      Synced(grown, records, current, next, toNumber)[j][UnitsCol].value == grown[j][UnitsCol].value
  {
    var g := Synced(grown, records, current, next, toNumber);
    forall i | 0 <= i < |records|
      ensures DataRow(g[i + 2])
      ensures RowRecord(g[i + 2]) == Loaded(records[i], toNumber)
      ensures g[i + 2][ExpectedUseOtherCol].readOnly <==> (records[i].expectedUse != Text("Other") || next.readOnly)
      ensures g[i + 2][UnitsCol].value == UnitsOf(records[i].fuelType, current.approvedFuels)
    {
      SyncedLoadedRow(grown, records, current, next, toNumber, i);
    }
    forall j | |records| + 2 <= j < |grown|
      ensures DataRow(g[j])
      ensures RowRecord(g[j]) == Record(Null, Null, Null, Null, Null)
      ensures g[j][UnitsCol].value == grown[j][UnitsCol].value
    {
      SyncedEmptiedRow(grown, records, current, next, toNumber, j);
    }
    forall j | 2 <= j < |grown|
      ensures DataRow(g[j])
    {
      if j < |records| + 2 {
        assert g[(j - 2) + 2] == g[j];
      }
    }
  }

  /** The records the loaded grid publishes are the loaded records without
      the empty ones: loading then publishing gives the records back. */
  lemma SyncedPayload(grown: seq<Row>, records: seq<Record>, current: Props, next: Props, toNumber: NumberConversion)
    requires WellShaped(grown) && |records| + 2 <= |grown|
    ensures WellShaped(Synced(grown, records, current, next, toNumber))
    ensures Payload(Synced(grown, records, current, next, toNumber)) == KeepNonEmpty(LoadedRecords(records, toNumber))
  {
    SyncedSpec(grown, records, current, next, toNumber);
    var g := Synced(grown, records, current, next, toNumber);
    var loaded := LoadedRecords(records, toNumber);
    var recs := DataRecords(g);
    var rest := recs[|records|..];
    assert recs == loaded + rest;
    forall k | 0 <= k < |rest|
      ensures EmptyRecord(rest[k])
    {
      assert rest[k] == RowRecord(g[k + |records| + 2]);
    }
    KeepEmptyOnly(rest);
    KeepNonEmptyAppend(loaded, rest);
    assert KeepNonEmpty(loaded) + [] == KeepNonEmpty(loaded);
  }

  /** A list of empty records publishes nothing. */
  lemma {:induction false} KeepEmptyOnly(recs: seq<Record>)
    requires forall k :: 0 <= k < |recs| ==> EmptyRecord(recs[k])
    ensures KeepNonEmpty(recs) == []
  {
    if recs != [] {
      KeepEmptyOnly(recs[..|recs| - 1]);
    }
  }

  // ---------------------------------------------------------------------
  // Publishing

  /** `_gridStateToPayload`: the records of the data rows, the empty ones
      left out. */
  method GridStateToPayload(grid: seq<Row>) returns (records: seq<Record>)
    requires WellShaped(grid)
    ensures records == Payload(grid)
  {
    records := [];
    ghost var all := DataRecords(grid);
    for i := 2 to |grid|
      invariant records == KeepNonEmpty(all[..i - 2])
    {
      var row := grid[i];
      var record := Record(row[ExpectedUseCol].value, row[FuelTypeCol].value, row[FuelClassCol].value,
                           row[QuantityCol].value, row[ExpectedUseOtherCol].value);
      var rowIsEmpty := !(Truthy(record.expectedUse) || Truthy(record.fuelClass) ||
                          Truthy(record.fuelType) || Truthy(record.quantity));
      assert all[..i - 1][..i - 2] == all[..i - 2];
      assert all[i - 2] == record;
      if !rowIsEmpty {
        records := records + [record];
      }
    }
    assert all[..|grid| - 2] == all;
  }

  /** One more change of the batch: the grid after `k + 1` changes is the
      grid after `k` with the row of change `k` rewritten (or untouched when
      the change is skipped). */
  lemma ApplyChangesSnoc(grid: seq<Row>, changes: seq<Change>, k: nat, props: Props, toNumber: NumberConversion)
    requires WellShaped(grid) && ChangesInRange(changes, |grid|) && k < |changes|
    ensures ChangesInRange(changes[..k], |grid|) && ChangesInRange(changes[..k + 1], |grid|)
    ensures var g := ApplyChanges(grid, changes[..k], props, toNumber);
      ApplyChanges(grid, changes[..k + 1], props, toNumber)
      == if changes[k].component then g
         else g[changes[k].row := ChangeRow(g[changes[k].row], changes[k], props, toNumber)]
  {
    assert changes[..k + 1][..k] == changes[..k];
    assert changes[..k + 1][k] == changes[k];
  }

  /** The loop of `_handleCellsChanged` over a change batch. */
  method ApplyChangeBatch(grid: seq<Row>, changes: seq<Change>, props: Props, toNumber: NumberConversion)
    returns (g: seq<Row>)
    requires WellShaped(grid) && ChangesInRange(changes, |grid|)
    ensures g == ApplyChanges(grid, changes, props, toNumber)
  {
    g := grid;
    for k := 0 to |changes|
      invariant ChangesInRange(changes[..k], |grid|)
      invariant g == ApplyChanges(grid, changes[..k], props, toNumber)
    {
      var change := changes[k];
      ApplyChangesSnoc(grid, changes, k, props, toNumber);
      if !change.component {
        g := g[change.row := ChangeRow(g[change.row], change, props, toNumber)];
      }
    }
    assert changes[..|changes|] == changes;
  }

  /** One pass of the loading loop: record `i` written into its row, which
      is then validated unless the host is validating. */
  method LoadRecord(row: Row, record: Record, i: nat, current: Props, next: Props, toNumber: NumberConversion)
    returns (r: Row)
    requires |row| == Columns
    ensures r == MaybeValidated(FilledRow(row, record, next, current, toNumber), i, current, toNumber)
  {
    r := row;
    var qty := toNumber(record.quantity);
    r := r[FuelTypeCol := r[FuelTypeCol].(value := record.fuelType)];
    r := r[FuelClassCol := r[FuelClassCol].(value := record.fuelClass)];
    r := r[ExpectedUseCol := r[ExpectedUseCol].(value := record.expectedUse)];
    r := r[ExpectedUseOtherCol := r[ExpectedUseOtherCol].(value := record.rationale)];
    r := r[ExpectedUseOtherCol := r[ExpectedUseOtherCol].(readOnly := record.expectedUse != Text("Other") || next.readOnly)];
    r := r[QuantityCol := r[QuantityCol].(value := if qty.None? then Text("") else Num(qty.value))];
    var selectedFuel := Find(current.approvedFuels, (f: Fuel) => Text(f.name) == record.fuelType);
    r := r[UnitsCol := r[UnitsCol].(value :=
      if selectedFuel.Some? && current.approvedFuels[selectedFuel.value].unitOfMeasure.Some?
      then Text(current.approvedFuels[selectedFuel.value].unitOfMeasure.value) else Text(""))];
    assert r == FilledRow(row, record, next, current, toNumber);
    if !current.validating {
      r := Validate(r, i, current, toNumber);
    }
  }

  /** One pass of the emptying loop: row `rowIndex` emptied, then validated
      unless the host is validating. */
  method ZeroRow(row: Row, rowIndex: nat, current: Props, toNumber: NumberConversion) returns (r: Row)
    requires |row| == Columns
    ensures r == MaybeValidated(ZeroedRow(row), rowIndex, current, toNumber)
  {
    r := row;
    r := r[FuelTypeCol := r[FuelTypeCol].(value := Null)];
    r := r[FuelClassCol := r[FuelClassCol].(value := Null)];
    r := r[ExpectedUseCol := r[ExpectedUseCol].(value := Null)];
    r := r[ExpectedUseOtherCol := r[ExpectedUseOtherCol].(value := Null)];
    r := r[ExpectedUseOtherCol := r[ExpectedUseOtherCol].(readOnly := false)];
    r := r[QuantityCol := r[QuantityCol].(value := Null)];
    assert r == ZeroedRow(row);
    if !current.validating {
      r := Validate(r, rowIndex, current, toNumber);
    }
  }

  // ---------------------------------------------------------------------
  // The component

  /** Two rows of headers, then rows of seven cells. */
  predicate DataRows(grid: seq<Row>)
  {
    |grid| >= 2 && forall j :: 2 <= j < |grid| ==> |grid[j]| == Columns
  }

  class ScheduleCContainer {
    /** The spreadsheet: two header rows, then one row per record. */
    var grid: seq<Row>
    /** The number the next added row shows. */
    var rowNumber: nat

    ghost predicate Valid()
      reads this
    {
      WellShaped(grid) && rowNumber + 1 == |grid|
    }

    /** The headers, and row numbering from 1. */
    constructor()
      ensures Valid()
      ensures grid == [HeaderRow0(), HeaderRow1()] && rowNumber == 1
    {
      grid := [HeaderRow0(), HeaderRow1()];
      rowNumber := 1;
    }

    /** `_addRow`: appends `numberOfRows` blank rows, numbered on from the
        last one. */
    method AddRow(numberOfRows: nat, props: Props)
      requires Valid()
      modifies this
      ensures Valid()
      ensures grid == old(grid) + NewRows(old(rowNumber), numberOfRows, props.readOnly)
      ensures rowNumber == old(rowNumber) + numberOfRows
    {
      for x := 0 to numberOfRows
        invariant grid == old(grid) + NewRows(old(rowNumber), x, props.readOnly)
        invariant rowNumber == old(rowNumber) + x
        invariant Valid()
      {
        var row := NewRow(rowNumber, props.readOnly);
        NewRowsSnoc(old(rowNumber), x, props.readOnly);
        NewRowIsDataRow(rowNumber, props.readOnly);
        AppendDataRow(grid, row);
        grid := grid + [row];
        rowNumber := rowNumber + 1;
      }
    }

    /** `_handleCellsChanged`: applies the batch in order, then publishes
        the grid's records. */
    method HandleCellsChanged(changes: seq<Change>, props: Props, toNumber: NumberConversion)
      returns (records: seq<Record>)
      requires Valid() && ChangesInRange(changes, |grid|)
      modifies this
      ensures Valid()
      ensures grid == ApplyChanges(old(grid), changes, props, toNumber)
      ensures rowNumber == old(rowNumber)
      ensures records == Payload(grid)
    {
      grid := ApplyChangeBatch(grid, changes, props, toNumber);
      records := GridStateToPayload(grid);
    }

    /** The loading loop: row `2 + i` takes record `i`. */
    method LoadRecords(records: seq<Record>, current: Props, next: Props, toNumber: NumberConversion)
      requires DataRows(grid) && |records| + 2 <= |grid|
      modifies this
      ensures DataRows(grid) && |grid| == old(|grid|) && rowNumber == old(rowNumber)
      ensures forall j :: 0 <= j < |grid| ==>
        grid[j] == if 2 <= j < |records| + 2
                   then MaybeValidated(FilledRow(old(grid)[j], records[j - 2], next, current, toNumber), j - 2, current, toNumber)
                   else old(grid)[j]
    {
      for i := 0 to |records|
        invariant DataRows(grid) && |grid| == old(|grid|) && rowNumber == old(rowNumber)
        invariant forall j :: 0 <= j < |grid| ==>
          grid[j] == if 2 <= j < i + 2
                     then MaybeValidated(FilledRow(old(grid)[j], records[j - 2], next, current, toNumber), j - 2, current, toNumber)
                     else old(grid)[j]
      {
        var row := LoadRecord(grid[i + 2], records[i], i, current, next, toNumber);
        grid := grid[i + 2 := row];
      }
    }

    /** The emptying loop: every row from `first` on is emptied. */
    method ZeroRemainingRows(first: nat, current: Props, toNumber: NumberConversion)
      requires DataRows(grid) && 2 <= first <= |grid|
      modifies this
      ensures DataRows(grid) && |grid| == old(|grid|) && rowNumber == old(rowNumber)
      ensures forall j :: 0 <= j < |grid| ==>
        grid[j] == if first <= j then MaybeValidated(ZeroedRow(old(grid)[j]), j, current, toNumber) else old(grid)[j]
    {
      for r := first to |grid|
        invariant DataRows(grid) && |grid| == old(|grid|) && rowNumber == old(rowNumber)
        invariant forall j :: 0 <= j < |grid| ==>
          grid[j] == if first <= j < r then MaybeValidated(ZeroedRow(old(grid)[j]), j, current, toNumber) else old(grid)[j]
      {
        var row := ZeroRow(grid[r], r, current, toNumber);
        grid := grid[r := row];
      }
    }

    /** The read-write branch of `componentWillReceiveProps`: loads the
        records of the source into the grid, growing it when needed, and
        empties the rows past them. */
    method ReceiveProps(current: Props, next: Props, toNumber: NumberConversion)
      requires Valid()
      modifies this
      ensures Valid()
      ensures SyncSource(current, next).None? ==> grid == old(grid) && rowNumber == old(rowNumber)
      ensures SyncSource(current, next).Some? ==>
        var records := SyncSource(current, next).value;
        grid == Synced(Grown(old(grid), old(rowNumber), |records|, current.readOnly), records, current, next, toNumber)
    {
      var source := if current.scheduleState.Some? then next.scheduleState else current.report;
      if source.None? {
        return;
      }
      var records := source.value;
      if |grid| - 2 < |records| {
        AddRow(|records| - (|grid| - 2), current);
      }
      ghost var grown := grid;
      assert grown == Grown(old(grid), old(rowNumber), |records|, current.readOnly);
      LoadRecords(records, current, next, toNumber);
      ZeroRemainingRows(|records| + 2, current, toNumber);
      ghost var target := Synced(grown, records, current, next, toNumber);
      forall j | 0 <= j < |grid|
        ensures grid[j] == target[j]
      {
      }
      assert grid == target;
      SyncedSpec(grown, records, current, next, toNumber);
    }
  }
}
