/** How a Schedule C row shows the outcome of the server-side validation: the
    " error" marker on the class names of the cells that failed, and the
    icon of the row-number cell. */
module ScheduleCValidation {
  import opened Support
  import opened JsValues
  import opened ScheduleC

  // ---------------------------------------------------------------------
  // Error keys

  /** The record fields a server-side check can reject. */
  const ErrorKeys: seq<string> := ["expectedUse", "fuelClass", "fuelType", "quantity", "rationale"]

  /** The column in which the failure of a record field is shown. */
  function ErrorKeyColumn(key: string): (col: Option<nat>)
    ensures col.Some? <==> key in ErrorKeys
    ensures col.Some? ==> col.value < Columns && col.value != RowNumberCol && col.value != UnitsCol
  {
    if key == "expectedUse" then Some(ExpectedUseCol)
    else if key == "fuelClass" then Some(FuelClassCol)
    else if key == "fuelType" then Some(FuelTypeCol)
    else if key == "quantity" then Some(QuantityCol)
    else if key == "rationale" then Some(ExpectedUseOtherCol)
    else None
  }

  /** The record field whose failure column `col` shows, if any. */
  function ColumnErrorKey(col: int): (key: Option<string>)
    ensures key.Some? ==> key.value in ErrorKeys
  {
    if col == ExpectedUseCol then Some("expectedUse")
    else if col == FuelClassCol then Some("fuelClass")
    else if col == FuelTypeCol then Some("fuelType")
    else if col == QuantityCol then Some("quantity")
    else if col == ExpectedUseOtherCol then Some("rationale")
    else None
  }

  /** The two maps are inverse to each other: every error key has a column
      of its own, and no other column shows a failure. */
  lemma ErrorKeyColumnInverse(key: string, col: int)
    ensures ErrorKeyColumn(key) == Some(col) <==> 0 <= col && ColumnErrorKey(col) == Some(key)
  {
  }

  // ---------------------------------------------------------------------
  // The error marker on a class name

  /** `className.replace(/error/g, '')`, done only when the marker occurs. */
  function ClearedClass(className: string): (r: string)
  {
    if Contains(className, ErrorMark) then RemoveAll(className, ErrorMark) else className
  }

  /** `className += ' error'` unless the marker is already there. */
  function MarkError(className: string): (r: string)
    ensures Contains(r, ErrorMark)
    ensures SingleMark(className) ==> SingleMark(r)
    ensures Clean(className) ==> r == className + " error"
    ensures !Clean(className) ==> r == className
  {
    if Contains(className, ErrorMark) then className
    else
      var r := className + " error";
      ContainsEnd(className + " ", ErrorMark);
      assert r == className + " " + ErrorMark;
      assert r[..|r| - 6] == className;
      r
  }

  /** Removing the marker from a class name that carries at most one leaves
      none. (A name with two, such as "errerroror", would keep one: see
      `RemoveAllIsSinglePass`.) */
  lemma UnmarkedIsClean(className: string)
    requires SingleMark(className)
    ensures Clean(RemoveAll(className, ErrorMark))
    ensures Clean(ClearedClass(className))
  {
    ShorterAbsent("", ErrorMark);
    if Clean(className) {
      RemoveAllAbsent(className, ErrorMark);
    } else if className == ErrorMark {
      assert ErrorMark <= className;
      assert className[|ErrorMark|..] == "";
    } else {
      var b := className[..|className| - 6];
      assert className == b + [' '] + ErrorMark by {
        assert className == b + className[|className| - 6..];
      }
      UnmarkSuffix(b);
    }
  }

  /** Marking a clean name and clearing it again leaves the name followed by
      the space that separated the marker. */
  lemma UnmarkSuffix(b: string)
    requires Clean(b)
    ensures RemoveAll(b + " error", ErrorMark) == b + " "
    ensures Clean(b + " ")
  {
    assert b + " error" == b + [' '] + ErrorMark;
    Separated(b, ' ', ErrorMark, ErrorMark);
    assert ErrorMark <= ErrorMark;
    assert ErrorMark[|ErrorMark|..] == "";
    ShorterAbsent("", ErrorMark);
    Separated(b, ' ', "", ErrorMark);
    assert b + [' '] + "" == b + " ";
  }

  /** Clearing a marked clean name gives back the name and a trailing space;
      a clean name is left alone. */
  lemma ClearMarkRoundTrip(className: string)
    requires Clean(className)
    ensures ClearedClass(className) == className
    ensures ClearedClass(MarkError(className)) == className + " "
  {
    UnmarkSuffix(className);
    ContainsEnd(className + " ", ErrorMark);
    assert className + " error" == className + " " + ErrorMark;
  }

  // ---------------------------------------------------------------------
  // clearErrorColumns

  /** A row whose fuel type, fuel class, quantity and expected use are all
      filled in. */
  predicate HasContent(row: Row)
    requires |row| == Columns
  {
    Truthy(row[FuelTypeCol].value) && Truthy(row[FuelClassCol].value)
    && Truthy(row[QuantityCol].value) && Truthy(row[ExpectedUseCol].value)
  }

  /** A row with the marker taken off every cell, whose row number shows a
      check mark when the row has content and the number otherwise. */
  function ClearedRow(row: Row): (r: Row)
    requires |row| == Columns
    ensures |r| == Columns
  {
    var cleared := seq(Columns, c requires 0 <= c < Columns => row[c].(className := ClearedClass(row[c].className)));
    cleared[RowNumberCol := cleared[RowNumberCol].(viewer := if HasContent(row) then ShowCheck else ShowValue)]
  }

  /** Clearing keeps every value and read-only flag, leaves no marker on a
      data row, keeps it a data row, and shows the check mark exactly when
      the row has content. */
  lemma ClearedRowSpec(row: Row)
    requires DataRow(row)
    ensures SameValues(row, ClearedRow(row)) && DataRow(ClearedRow(row))
    ensures forall c :: 0 <= c < Columns ==> Clean(ClearedRow(row)[c].className)
    ensures forall c :: 1 <= c < Columns ==> ClearedRow(row)[c].viewer == row[c].viewer
    ensures ClearedRow(row)[RowNumberCol].viewer == ShowCheck <==> HasContent(row)
  {
    var r := ClearedRow(row);
    forall c | 0 <= c < Columns
      ensures Clean(r[c].className)
    {
      UnmarkedIsClean(row[c].className);
    }
  }

  /** Clearing twice is clearing once. */
  lemma ClearedRowIdempotent(row: Row)
    requires DataRow(row)
    ensures ClearedRow(ClearedRow(row)) == ClearedRow(row)
  {
    ClearedRowSpec(row);
    var r := ClearedRow(row);
    assert HasContent(r) == HasContent(row);
    forall c | 0 <= c < Columns
      ensures ClearedRow(r)[c] == r[c]
    {
      assert ClearedClass(r[c].className) == r[c].className;
    }
  }

  /** `clearErrorColumns`: each cell in turn, then the row-number viewer. */
  method ClearErrorColumns(row: Row) returns (r: Row)
    requires |row| == Columns
    ensures r == ClearedRow(row)
  {
    r := row;
    for col := 0 to |r|
      invariant |r| == Columns
      invariant forall c :: 0 <= c < col ==> r[c] == row[c].(className := ClearedClass(row[c].className))
      invariant forall c :: col <= c < Columns ==> r[c] == row[c]
    {
      var className := r[col].className;
      if className != "" && Contains(className, ErrorMark) {
        r := r[col := r[col].(className := RemoveAll(className, ErrorMark))];
      }
    }
    var hasContent := Truthy(r[FuelTypeCol].value) && Truthy(r[FuelClassCol].value)
      && Truthy(r[QuantityCol].value) && Truthy(r[ExpectedUseCol].value);
    r := r[RowNumberCol := r[RowNumberCol].(viewer := if hasContent then ShowCheck else ShowValue)];
  }

  // ---------------------------------------------------------------------
  // Messages per record

  /** The columns of the error keys in `done` that the record does not
      name, with the marker taken off. */
  function UnmarkKeys(row: Row, done: seq<string>, keys: seq<string>): (r: Row)
    requires |row| == Columns
    ensures |r| == Columns
  {
    seq(Columns, c requires 0 <= c < Columns =>
      if ColumnErrorKey(c).Some? && ColumnErrorKey(c).value in done && ColumnErrorKey(c).value !in keys
      then row[c].(className := RemoveAll(row[c].className, ErrorMark))
      else row[c])
  }

  /** Step one: the columns of the error keys the record does not name lose
      their marker. */
  function UnmarkUnlisted(row: Row, keys: seq<string>): (r: Row)
    requires |row| == Columns
    ensures |r| == Columns
  {
    UnmarkKeys(row, ErrorKeys, keys)
  }

  lemma ErrorKeysDistinct()
    ensures forall i, j :: 0 <= i < j < |ErrorKeys| ==> ErrorKeys[i] != ErrorKeys[j]
  {
  }

  /** One more error key handled. */
  lemma UnmarkKeysStep(row: Row, done: seq<string>, keys: seq<string>, key: string)
    requires |row| == Columns && key in ErrorKeys && key !in done
    ensures UnmarkKeys(row, done + [key], keys) ==
      var col := ErrorKeyColumn(key).value;
      var u := UnmarkKeys(row, done, keys);
      if key in keys then u else u[col := u[col].(className := RemoveAll(u[col].className, ErrorMark))]
  {
    var col := ErrorKeyColumn(key).value;
    forall c | 0 <= c < Columns
      ensures ColumnErrorKey(c).Some? && ColumnErrorKey(c).value in done + [key]
          <==> (ColumnErrorKey(c).Some? && ColumnErrorKey(c).value in done) || c == col
    {
      ErrorKeyColumnInverse(key, c);
    }
  }

  /** Step two: the row number loses its marker when nothing failed, and
      shows a warning when something did and a check mark otherwise. */
  function RowNumberForKeys(row: Row, keys: seq<string>): (r: Row)
    requires |row| == Columns
    ensures |r| == Columns
  {
    var cell := row[RowNumberCol];
    row[RowNumberCol := cell.(
      className := if |keys| == 0 then RemoveAll(cell.className, ErrorMark) else cell.className,
      viewer := if |keys| > 0 then ShowWarning else ShowCheck)]
  }

  /** Step three: the columns of the error keys the record names are
      marked. */
  function MarkListed(row: Row, keys: seq<string>): (r: Row)
    requires |row| == Columns
    ensures |r| == Columns
  {
    seq(Columns, c requires 0 <= c < Columns =>
      if ColumnErrorKey(c).Some? && ColumnErrorKey(c).value in keys
      then row[c].(className := MarkError(row[c].className))
      else row[c])
  }

  /** The row after the failures of its record, `keys`, are shown. */
  function StructuredRow(row: Row, keys: seq<string>): (r: Row)
    requires |row| == Columns
    ensures |r| == Columns
  {
    MarkListed(RowNumberForKeys(UnmarkUnlisted(row, keys), keys), keys)
  }

  /** Showing a record's failures keeps every value and read-only flag and
      keeps a data row a data row; the column of an error key carries the
      marker exactly when the record names that key; the row number warns
      exactly when the record names any key; no other column changes. */
  lemma StructuredRowSpec(row: Row, keys: seq<string>)
    requires DataRow(row)
    ensures SameValues(row, StructuredRow(row, keys)) && DataRow(StructuredRow(row, keys))
    ensures forall c :: 0 <= c < Columns && ColumnErrorKey(c).Some? ==>
      (Contains(StructuredRow(row, keys)[c].className, ErrorMark) <==> ColumnErrorKey(c).value in keys)
    ensures StructuredRow(row, keys)[RowNumberCol].viewer == ShowWarning <==> |keys| > 0
    ensures StructuredRow(row, keys)[UnitsCol] == row[UnitsCol]
  {
    var r1 := UnmarkUnlisted(row, keys);
    var r2 := RowNumberForKeys(r1, keys);
    var r := MarkListed(r2, keys);
    forall c | 0 <= c < Columns
      ensures SingleMark(r[c].className)
      ensures ColumnErrorKey(c).Some? ==> (Contains(r[c].className, ErrorMark) <==> ColumnErrorKey(c).value in keys)
    {
      UnmarkedIsClean(row[c].className);
    }
  }

  /** Marking is idempotent, so marking the listed columns once each is
      the same as marking them once per occurrence in the list. */
  lemma MarkListedStep(row: Row, keys: seq<string>, key: string)
    requires |row| == Columns
    ensures MarkListed(row, keys + [key]) ==
      match ErrorKeyColumn(key)
      case None => MarkListed(row, keys)
      case Some(col) =>
        var m := MarkListed(row, keys);
        m[col := m[col].(className := MarkError(m[col].className))]
  {
    var m := MarkListed(row, keys);
    match ErrorKeyColumn(key)
    case None =>
      forall c | 0 <= c < Columns
        ensures MarkListed(row, keys + [key])[c] == m[c]
      {
        ErrorKeyColumnInverse(key, c);
      }
    case Some(col) =>
      forall c | 0 <= c < Columns
        ensures MarkListed(row, keys + [key])[c] == m[col := m[col].(className := MarkError(m[col].className))][c]
      {
        ErrorKeyColumnInverse(key, c);
      }
  }

  /** The first pass over the error keys: each key the record does not name
      has the marker taken off its column. */
  method UnmarkUnlistedColumns(row: Row, keys: seq<string>) returns (r: Row)
    requires |row| == Columns
    ensures r == UnmarkUnlisted(row, keys)
  {
    r := row;
    ErrorKeysDistinct();
    for k := 0 to |ErrorKeys|
      invariant r == UnmarkKeys(row, ErrorKeys[..k], keys)
    {
      var errorKey := ErrorKeys[k];
      var col := ErrorKeyColumn(errorKey).value;
      assert ErrorKeys[..k + 1] == ErrorKeys[..k] + [errorKey];
      UnmarkKeysStep(row, ErrorKeys[..k], keys, errorKey);
      if errorKey !in keys {
        r := r[col := r[col].(className := RemoveAll(r[col].className, ErrorMark))];
      }
    }
    assert ErrorKeys[..|ErrorKeys|] == ErrorKeys;
  }

  /** The pass over the keys the record names: each error key among them
      marks its column, unless the column is marked already. */
  method MarkListedColumns(row: Row, keys: seq<string>) returns (r: Row)
    requires |row| == Columns
    ensures r == MarkListed(row, keys)
  {
    r := row;
    for k := 0 to |keys|
      invariant r == MarkListed(row, keys[..k])
    {
      var errorKey := keys[k];
      assert keys[..k + 1] == keys[..k] + [errorKey];
      MarkListedStep(row, keys[..k], errorKey);
      var col := ErrorKeyColumn(errorKey);
      if col.Some? {
        var className := r[col.value].className;
        if !Contains(r[col.value].className, ErrorMark) {
          className := className + " error";
        }
        r := r[col.value := r[col.value].(className := className)];
      }
    }
    assert keys[..|keys|] == keys;
  }

  /** The three steps of showing a record's failures, in the order the
      page takes them. */
  method ShowRecordFailures(row: Row, keys: seq<string>) returns (r: Row)
    requires |row| == Columns
    ensures r == StructuredRow(row, keys)
  {
    r := UnmarkUnlistedColumns(row, keys);
    var rowNumberClassName := r[RowNumberCol].className;
    if |keys| == 0 {
      rowNumberClassName := RemoveAll(rowNumberClassName, ErrorMark);
    }
    r := r[RowNumberCol := r[RowNumberCol].(className := rowNumberClassName,
                                             viewer := if |keys| > 0 then ShowWarning else ShowCheck)];
    r := MarkListedColumns(r, keys);
  }

  // ---------------------------------------------------------------------
  // Flat message list

  /** Does `message` report a duplicate of the record at `rowIndex`? It must
      mention a duplicate entry, and what is left once the prefix is deleted
      must read as the same number. */
  predicate NamesDuplicate(message: string, rowIndex: nat, toNumber: NumberConversion)
  {
    && Contains(message, "Duplicate entry in row")
    && toNumber(Text(RemoveAll(message, "Duplicate entry in row "))) == Some(NatToString(rowIndex))
  }

  /** The row number of a duplicated row: the marker added (or made the
      whole class name when there was none) and a warning shown. */
  function FlagRowNumber(cell: Cell): (r: Cell)
    ensures r.value == cell.value && r.readOnly == cell.readOnly && r.viewer == ShowWarning
    ensures Contains(r.className, ErrorMark)
    ensures SingleMark(cell.className) ==> SingleMark(r.className)
    ensures cell.className == "" ==> r.className == ErrorMark
    ensures cell.className != "" ==> r.className == MarkError(cell.className)
  {
    if cell.className == "" then
      ContainsEnd("", ErrorMark);
      assert "" + ErrorMark == ErrorMark;
      cell.(className := ErrorMark, viewer := ShowWarning)
    else cell.(className := MarkError(cell.className), viewer := ShowWarning)
  }

  /** The row after a flat list of messages: cleared, and its row number
      flagged when some message reports it as a duplicate. */
  function UnstructuredRow(row: Row, messages: seq<string>, rowIndex: nat, toNumber: NumberConversion): (r: Row)
    requires |row| == Columns
    ensures |r| == Columns
  {
    var cleared := ClearedRow(row);
    if exists m :: m in messages && NamesDuplicate(m, rowIndex, toNumber)
    then cleared[RowNumberCol := FlagRowNumber(cleared[RowNumberCol])]
    else cleared
  }

  /** A flat list of messages keeps every value and read-only flag and keeps
      a data row a data row; it takes the marker off every column but the
      row number, and the row number carries the marker and warns exactly
      when some message reports the row as a duplicate. */
  lemma UnstructuredRowSpec(row: Row, messages: seq<string>, rowIndex: nat, toNumber: NumberConversion)
    requires DataRow(row)
    ensures SameValues(row, UnstructuredRow(row, messages, rowIndex, toNumber))
    ensures DataRow(UnstructuredRow(row, messages, rowIndex, toNumber))
    ensures forall c :: 1 <= c < Columns ==> Clean(UnstructuredRow(row, messages, rowIndex, toNumber)[c].className)
    ensures Contains(UnstructuredRow(row, messages, rowIndex, toNumber)[RowNumberCol].className, ErrorMark)
        <==> exists m :: m in messages && NamesDuplicate(m, rowIndex, toNumber)
    ensures UnstructuredRow(row, messages, rowIndex, toNumber)[RowNumberCol].viewer == ShowWarning
        <==> exists m :: m in messages && NamesDuplicate(m, rowIndex, toNumber)
  {
    ClearedRowSpec(row);
  }

  /** Flagging a row number that is already flagged changes nothing. */
  lemma FlagRowNumberIdempotent(cell: Cell)
    ensures FlagRowNumber(FlagRowNumber(cell)) == FlagRowNumber(cell)
  {
    ContainsEnd("", ErrorMark);
    assert "" + ErrorMark == ErrorMark;
  }

  /** The messages in turn; each duplicate report about this row flags its
      row number. */
  method ShowDuplicateMessages(row: Row, messages: seq<string>, rowIndex: nat, toNumber: NumberConversion)
    returns (r: Row)
    requires |row| == Columns
    ensures r == UnstructuredRow(row, messages, rowIndex, toNumber)
  {
    r := ClearErrorColumns(row);
    ghost var cleared := r;
    for k := 0 to |messages|
      invariant r == if exists m :: m in messages[..k] && NamesDuplicate(m, rowIndex, toNumber)
                     then cleared[RowNumberCol := FlagRowNumber(cleared[RowNumberCol])]
                     else cleared
    {
      var message := messages[k];
      assert messages[..k + 1] == messages[..k] + [message];
      if Contains(message, "Duplicate entry in row") {
        var duplicateRowIndex := RemoveAll(message, "Duplicate entry in row ");
        if toNumber(Text(duplicateRowIndex)) == Some(NatToString(rowIndex)) {
          var className := r[RowNumberCol].className;
          if className == "" {
            className := "error";
          } else if !Contains(r[RowNumberCol].className, ErrorMark) {
            className := className + " error";
          }
          FlagRowNumberIdempotent(cleared[RowNumberCol]);
          assert r[RowNumberCol].(className := className, viewer := ShowWarning) == FlagRowNumber(r[RowNumberCol]);
          assert message in messages[..k + 1];
          r := r[RowNumberCol := r[RowNumberCol].(className := className, viewer := ShowWarning)];
        }
      }
    }
    assert messages[..|messages|] == messages;
  }

  // ---------------------------------------------------------------------
  // _validate

  /** The row as validation shows it: cleared when the report is valid or
      has no Schedule C messages, the record's failures when there is a
      per-record list long enough to hold this row, the duplicate reports
      when there is a flat list, and unchanged otherwise. */
  function Validated(row: Row, rowIndex: nat, props: Props, toNumber: NumberConversion): (r: Row)
    requires |row| == Columns
    ensures |r| == Columns
  {
    if props.valid || props.messages == Some(Missing) then ClearedRow(row)
    else if props.messages.Some? && props.messages.value.Structured? && |props.messages.value.records| > rowIndex
    then StructuredRow(row, props.messages.value.records[rowIndex])
    else if props.messages.Some? && props.messages.value.Unstructured?
    then UnstructuredRow(row, props.messages.value.messages, rowIndex, toNumber)
    else row
  }

  /** Validation only ever restyles a row: it keeps every value and
      read-only flag, and a data row stays a data row. */
  lemma ValidatedKeepsValues(row: Row, rowIndex: nat, props: Props, toNumber: NumberConversion)
    requires DataRow(row)
    ensures SameValues(row, Validated(row, rowIndex, props, toNumber))
    ensures DataRow(Validated(row, rowIndex, props, toNumber))
  {
    if props.valid || props.messages == Some(Missing) {
      ClearedRowSpec(row);
    } else if props.messages.Some? && props.messages.value.Structured? && |props.messages.value.records| > rowIndex {
      StructuredRowSpec(row, props.messages.value.records[rowIndex]);
    } else if props.messages.Some? && props.messages.value.Unstructured? {
      UnstructuredRowSpec(row, props.messages.value.messages, rowIndex, toNumber);
    }
  }

  /** `_validate`. */
  method Validate(row: Row, rowIndex: nat, props: Props, toNumber: NumberConversion) returns (r: Row)
    requires |row| == Columns
    ensures r == Validated(row, rowIndex, props, toNumber)
  {
    if props.valid || (props.messages.Some? && props.messages.value.Missing?) {
      r := ClearErrorColumns(row);
    } else if props.messages.Some? && props.messages.value.Structured? && |props.messages.value.records| > rowIndex {
      r := ShowRecordFailures(row, props.messages.value.records[rowIndex]);
    } else if props.messages.Some? && props.messages.value.Unstructured? {
      r := ShowDuplicateMessages(row, props.messages.value.messages, rowIndex, toNumber);
    } else {
      r := row;
    }
  }
}
