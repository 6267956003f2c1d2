/**
 * The CSV importer of server.js: every parsed row is collected, an empty file
 * skips the database, and otherwise one bulk INSERT is issued whose tuples are
 * the rows coerced column by column.
 *
 * Reading the file and parsing CSV are not modelled: the parser's output is a
 * finite sequence of rows (each a map from header name to raw text) followed
 * by how the stream ended. Console output, the database call and a crash of the
 * process are recorded as a trace of effects.
 */
module Ingest {
  import opened Options
  import opened Schema

  /** One parsed CSV row: header name to raw text. */
  type Row = map<string, string>

  /** A JavaScript value placed in one cell of an INSERT tuple. */
  datatype Value = Undefined | Null | Str(s: string) | Number(n: real)

  /** One tuple of the INSERT's `VALUES ?`, in the order of `Schema.Columns`. */
  type Tuple = seq<Value>

  /**
   * JavaScript's `isNaN` and `parseFloat` applied to a string, left abstract:
   * the coercion only tests and converts, and nothing here depends on what counts
   * as a number.
   */
  datatype NumberReader = NumberReader(isNaN: string -> bool, parseFloat: string -> real)

  /** How the awaited stream settled. */
  datatype StreamEnd =
    | Finished     // the parser emitted "end"
    | ParseError   // the parser emitted "error"; the promise rejects
    | ReadError    // the file stream emitted "error" (say, the file does not exist)

  datatype CsvStream = CsvStream(rows: seq<Row>, end: StreamEnd)

  /** What pool.query reports for the INSERT. */
  datatype StorageReply = Affected(rows: nat) | Rejected

  datatype Message =
    | NoDataFound           // "No data found in CSV. Skipping database insertion."
    | InsertedRows(n: nat)  // "Inserted rows:" with the driver's affectedRows
    | InsertFailed          // "Error inserting data:"
    | CsvFailed             // "Error processing CSV:"

  datatype Effect =
    | Log(message: Message)       // console.log
    | LogError(message: Message)  // console.error
    | Load(values: seq<Tuple>)    // pool.query(INSERT INTO events ... VALUES ?, [values])
    | Crash                       // an "error" event nobody listens to ends the process

  /** `row.name`: the raw text, or `undefined` when the parsed row has no such key. */
  function Field(row: Row, name: string): Option<string>
  {
    if name in row then Some(row[name]) else None
  }

  /** A raw field passed through untouched. */
  function Verbatim(raw: Option<string>): Value
  {
    match raw
    case None => Undefined
    case Some(s) => Str(s)
  }

  /** `isNaN(x) || x === ""`; `isNaN(undefined)` is true. */
  predicate NotANumber(raw: Option<string>, reader: NumberReader)
  {
    raw.None? || reader.isNaN(raw.value) || raw.value == ""
  }

  /** The coercion of the two bitrate fields. */
  function BitRate(raw: Option<string>, reader: NumberReader): Value
  {
    if NotANumber(raw, reader) then Null else Number(reader.parseFloat(raw.value))
  }

  /** The coercion of the four session fields: only the empty string becomes null. */
  function EmptyAsNull(raw: Option<string>): Value
  {
    if raw == Some("") then Null else Verbatim(raw)
  }

  const SessionColumns: set<string> := {"fup_to_full", "full_to_fup", "fup_status", "multisim_flag"}

  /** The null policy for one column, stated per kind of column. */
  ghost predicate Coerced(name: string, raw: Option<string>, v: Value, reader: NumberReader)
  {
    if name in FloatColumns then
      && (v == Null <==> NotANumber(raw, reader))
      && (v != Null ==> raw.Some? && v == Number(reader.parseFloat(raw.value)))
    else if name in SessionColumns then
      && (v == Null <==> raw == Some(""))
      && (v != Null ==> v == Verbatim(raw))
    else
      v == Verbatim(raw)
  }

  /** The tuple `insertData` builds for one row. */
  function CoerceRow(row: Row, reader: NumberReader): (t: Tuple)
    ensures |t| == |Columns|
    ensures forall k | 0 <= k < |Columns| :: Coerced(Columns[k], Field(row, Columns[k]), t[k], reader)
  {
    [ Verbatim(Field(row, "timestamp")),
      Verbatim(Field(row, "eventName")),
      Verbatim(Field(row, "MSISDN")),
      Verbatim(Field(row, "ip")),
      Verbatim(Field(row, "crName")),
      Verbatim(Field(row, "classIdentifier")),
      BitRate(Field(row, "maxUploadBitRate"), reader),
      BitRate(Field(row, "maxDownloadBitRate"), reader),
      EmptyAsNull(Field(row, "fup_to_full")),
      EmptyAsNull(Field(row, "full_to_fup")),
      EmptyAsNull(Field(row, "fup_status")),
      EmptyAsNull(Field(row, "multisim_flag")) ]
  }

  /** `data.map(row => [...])`: one tuple per row, in row order. */
  function InsertValues(data: seq<Row>, reader: NumberReader): (values: seq<Tuple>)
    ensures |values| == |data|
    ensures forall i | 0 <= i < |data| :: values[i] == CoerceRow(data[i], reader)
  {
    if data == [] then [] else [CoerceRow(data[0], reader)] + InsertValues(data[1..], reader)
  }

  /** The tuples of every INSERT in a trace, in order. */
  function Loads(effects: seq<Effect>): seq<seq<Tuple>>
  {
    if effects == [] then []
    else (if effects[0].Load? then [effects[0].values] else []) + Loads(effects[1..])
  }

  lemma {:induction false} LoadsAppend(a: seq<Effect>, b: seq<Effect>)
    ensures Loads(a + b) == Loads(a) + Loads(b)
    decreases |a|
  {
    if a == [] {
      assert a + b == b;
    } else {
      var head := if a[0].Load? then [a[0].values] else [];
      assert (a + b)[0] == a[0] && (a + b)[1..] == a[1..] + b;
      assert Loads(a + b) == head + Loads(a[1..] + b);
      LoadsAppend(a[1..], b);
      assert head + (Loads(a[1..]) + Loads(b)) == (head + Loads(a[1..])) + Loads(b);
    }
  }

  /**
   * `insertData`: one INSERT carrying every row, then a log line; a rejected
   * INSERT is logged and not rethrown.
   */
  function InsertData(data: seq<Row>, reader: NumberReader, reply: StorageReply): (effects: seq<Effect>)
    ensures Loads(effects) == [InsertValues(data, reader)]
    ensures Crash !in effects
    ensures |effects| == 2 && effects[0] == Load(InsertValues(data, reader))
    ensures effects[1] == if reply.Affected? then Log(InsertedRows(reply.rows)) else LogError(InsertFailed)
  {
    var effects := [Load(InsertValues(data, reader)),
                    match reply
                    case Affected(n) => Log(InsertedRows(n))
                    case Rejected => LogError(InsertFailed)];
    assert effects == [effects[0]] + [effects[1]];
    LoadsAppend([effects[0]], [effects[1]]);
    effects
  }

  /** The `data` callback: every row the parser emits is appended to `results`, in order. */
  method CollectRows(stream: CsvStream) returns (results: seq<Row>)
    ensures results == stream.rows
  {
    results := [];
    var i := 0;
    while i < |stream.rows|
      invariant 0 <= i <= |stream.rows|
      invariant results == stream.rows[..i]
    {
      results := results + [stream.rows[i]];
      i := i + 1;
    }
  }

  /**
   * `importCsvData` as written. Only the parser's "error" rejects the awaited
   * promise; `pipe` does not forward an error of the file stream, which has no
   * listener, so such an error escapes the try/catch and ends the process.
   */
  method ImportCsvData(stream: CsvStream, reader: NumberReader, reply: StorageReply)
    returns (effects: seq<Effect>)
    ensures stream.end.ReadError? ==> effects == [Crash]
    ensures stream.end.ParseError? ==> effects == [LogError(CsvFailed)]
    ensures stream.end.Finished? && stream.rows == [] ==> effects == [Log(NoDataFound)]
    ensures stream.end.Finished? && stream.rows != [] ==> effects == InsertData(stream.rows, reader, reply)
    ensures Loads(effects) == if stream.end.Finished? && stream.rows != [] then [InsertValues(stream.rows, reader)] else []
  {
    var results := CollectRows(stream);
    if stream.end.ReadError? {
      return [Crash];
    }
    if stream.end.ParseError? {
      return [LogError(CsvFailed)];
    }
    if |results| == 0 {
      return [Log(NoDataFound)];
    }
    effects := InsertData(results, reader, reply);
  }

  /**
   * `importCsvData` with the file stream's error routed to the same rejection
   * (as `stream.pipeline` or an "error" listener on the file stream would do):
   * every stream failure is caught and logged, no INSERT is issued for it, and
   * the process never ends on it.
   */
  method ImportCsvDataCorrected(stream: CsvStream, reader: NumberReader, reply: StorageReply)
    returns (effects: seq<Effect>)
    ensures Crash !in effects
    ensures !stream.end.Finished? ==> effects == [LogError(CsvFailed)]
    ensures stream.end.Finished? && stream.rows == [] ==> effects == [Log(NoDataFound)]
    ensures stream.end.Finished? && stream.rows != [] ==> effects == InsertData(stream.rows, reader, reply)
    ensures Loads(effects) == if stream.end.Finished? && stream.rows != [] then [InsertValues(stream.rows, reader)] else []
  {
    var results := CollectRows(stream);
    if !stream.end.Finished? {
      return [LogError(CsvFailed)];
    }
    if |results| == 0 {
      return [Log(NoDataFound)];
    }
    effects := InsertData(results, reader, reply);
  }

  // ----- what the INSERT stores -----

  /** Every cell holds what its column can store: no text in a FLOAT column, no number in a VARCHAR one. */
  ghost predicate WellTyped(t: Tuple)
  {
    && |t| == |Columns|
    && (forall k | 0 <= k < |t| && Columns[k] in FloatColumns :: !t[k].Str?)
    && (forall k | 0 <= k < |t| && Columns[k] !in FloatColumns :: !t[k].Number?)
  }

  lemma CoerceRowWellTyped(row: Row, reader: NumberReader)
    ensures WellTyped(CoerceRow(row, reader))
  {
  }

  /** The VARCHAR cell for a value; the driver writes both `undefined` and `null` as NULL. */
  function StoredText(v: Value): Option<string>
    requires !v.Number?
  {
    if v.Str? then Some(v.s) else None
  }

  function StoredFloat(v: Value): Option<real>
    requires !v.Str?
  {
    if v.Number? then Some(v.n) else None
  }

  /** The `events` row an INSERT tuple becomes. */
  function StoredEvent(t: Tuple): Event
    requires WellTyped(t)
  {
    Event(StoredText(t[0]), StoredText(t[1]), StoredText(t[2]), StoredText(t[3]),
          StoredText(t[4]), StoredText(t[5]), StoredFloat(t[6]), StoredFloat(t[7]),
          StoredText(t[8]), StoredText(t[9]), StoredText(t[10]), StoredText(t[11]))
  }

  /** The table after a successful INSERT: the coerced rows appended in order. */
  function LoadInto(table: seq<Event>, values: seq<Tuple>): (r: seq<Event>)
    requires forall i | 0 <= i < |values| :: WellTyped(values[i])
    ensures |r| == |table| + |values|
    ensures r[..|table|] == table
    ensures forall i | 0 <= i < |values| :: r[|table| + i] == StoredEvent(values[i])
    decreases |values|
  {
    if values == [] then table else LoadInto(table + [StoredEvent(values[0])], values[1..])
  }

  /**
   * A row read back after loading: NULL exactly where the null policy put it,
   * the parsed number in a numeric bitrate field, and every other field as in the file
   * (a session field that is not NULL holds the file's text).
   */
  lemma StoredRowNulls(row: Row, reader: NumberReader)
    ensures WellTyped(CoerceRow(row, reader))
    ensures var e := StoredEvent(CoerceRow(row, reader));
      && e.timestamp == Field(row, "timestamp")
      && e.eventName == Field(row, "eventName")
      && e.msisdn == Field(row, "MSISDN")
      && e.ip == Field(row, "ip")
      && e.crName == Field(row, "crName")
      && e.classIdentifier == Field(row, "classIdentifier")
      && (e.maxUploadBitRate.None? <==> NotANumber(Field(row, "maxUploadBitRate"), reader))
      && (e.maxDownloadBitRate.None? <==> NotANumber(Field(row, "maxDownloadBitRate"), reader))
      && (e.maxUploadBitRate.Some? ==> e.maxUploadBitRate.value == reader.parseFloat(row["maxUploadBitRate"]))
      && (e.maxDownloadBitRate.Some? ==> e.maxDownloadBitRate.value == reader.parseFloat(row["maxDownloadBitRate"]))
      && (e.fupToFull.None? <==> Field(row, "fup_to_full") in {None, Some("")})
      && (e.fupToFull.Some? ==> e.fupToFull == Field(row, "fup_to_full"))
      && (e.fullToFup.None? <==> Field(row, "full_to_fup") in {None, Some("")})
      && (e.fullToFup.Some? ==> e.fullToFup == Field(row, "full_to_fup"))
      && (e.fupStatus.None? <==> Field(row, "fup_status") in {None, Some("")})
      && (e.fupStatus.Some? ==> e.fupStatus == Field(row, "fup_status"))
      && (e.multisimFlag.None? <==> Field(row, "multisim_flag") in {None, Some("")})
      && (e.multisimFlag.Some? ==> e.multisimFlag == Field(row, "multisim_flag"))
  {
  }

  /** The cell a SELECT returns for a stored value: `undefined` and `null` both read back as NULL. */
  function Cell(v: Value): SqlValue
  {
    match v
    case Undefined => SqlNull
    case Null => SqlNull
    case Str(s) => SqlText(s)
    case Number(n) => SqlFloat(n)
  }

  /**
   * The INSERT writes by position and a SELECT reads by name: the column named
   * `Columns[k]` of a stored row holds the k-th cell of its tuple.
   */
  lemma ReadBack(t: Tuple, k: nat)
    requires WellTyped(t) && k < |Columns|
    ensures Column(StoredEvent(t), Columns[k]) == Cell(t[k])
  {
    var e := StoredEvent(t);
    if k < 6 {
      assert Column(e, Columns[k]) == TextCell(StoredText(t[k])) by {
        if k == 0 { assert Columns[0] == "timestamp"; }
        else if k == 1 { assert Columns[1] == "eventName"; }
        else if k == 2 { assert Columns[2] == "MSISDN"; }
        else if k == 3 { assert Columns[3] == "ip"; }
        else if k == 4 { assert Columns[4] == "crName"; }
        else { assert Columns[5] == "classIdentifier"; }
      }
    } else if k < 8 {
      assert Column(e, Columns[k]) == FloatCell(StoredFloat(t[k])) by {
        if k == 6 { assert Columns[6] == "maxUploadBitRate"; }
        else { assert Columns[7] == "maxDownloadBitRate"; }
      }
    } else {
      assert Column(e, Columns[k]) == TextCell(StoredText(t[k])) by {
        if k == 8 { assert Columns[8] == "fup_to_full"; }
        else if k == 9 { assert Columns[9] == "full_to_fup"; }
        else if k == 10 { assert Columns[10] == "fup_status"; }
        else { assert Columns[11] == "multisim_flag"; }
      }
    }
  }

  /**
   * The null policy as a query sees it: the column a SELECT reads from a loaded
   * CSV row is NULL exactly where the policy for that column puts NULL.
   */
  lemma ReadBackPolicy(row: Row, reader: NumberReader, k: nat)
    requires k < |Columns|
    ensures WellTyped(CoerceRow(row, reader))
    ensures var name := Columns[k];
      var raw := Field(row, name);
      var c := Column(StoredEvent(CoerceRow(row, reader)), name);
      && (name in FloatColumns ==>
            && (c == SqlNull <==> NotANumber(raw, reader))
            && (c != SqlNull ==> raw.Some? && c == SqlFloat(reader.parseFloat(raw.value))))
      && (name in SessionColumns ==>
            && (c == SqlNull <==> raw == None || raw == Some(""))
            && (c != SqlNull ==> raw.Some? && c == SqlText(raw.value)))
      && (name !in FloatColumns && name !in SessionColumns ==> c == TextCell(raw))
  {
    CoerceRowWellTyped(row, reader);
    ReadBack(CoerceRow(row, reader), k);
  }

  /**
   * After a successful import the table is the old table followed by one row per
   * CSV row, in file order, each holding that row's coerced values.
   */
  lemma {:induction false} ImportedTable(table: seq<Event>, rows: seq<Row>, reader: NumberReader)
    ensures forall i | 0 <= i < |rows| :: WellTyped(InsertValues(rows, reader)[i])
    ensures var r := LoadInto(table, InsertValues(rows, reader));
      && |r| == |table| + |rows|
      && r[..|table|] == table
      && forall i | 0 <= i < |rows| :: r[|table| + i] == StoredEvent(CoerceRow(rows[i], reader))
  {
    forall i | 0 <= i < |rows| ensures WellTyped(InsertValues(rows, reader)[i]) {
      CoerceRowWellTyped(rows[i], reader);
    }
  }
}
