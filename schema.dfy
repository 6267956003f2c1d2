/**
 * The `events` table that the CSV importer fills and the lookup endpoints read
 * (its CREATE TABLE statement is kept as a comment at the end of server.js).
 * Every column is nullable; NULL is `None`.
 */
module Schema {
  import opened Options

  /** One cell of a result row, as the MySQL driver hands it back. */
  datatype SqlValue = SqlNull | SqlText(text: string) | SqlFloat(number: real)

  /** One row of `events`, column for column. */
  datatype Event = Event(
    timestamp: Option<string>,
    eventName: Option<string>,
    msisdn: Option<string>,
    ip: Option<string>,
    crName: Option<string>,
    classIdentifier: Option<string>,
    maxUploadBitRate: Option<real>,
    maxDownloadBitRate: Option<real>,
    fupToFull: Option<string>,
    fullToFup: Option<string>,
    fupStatus: Option<string>,
    multisimFlag: Option<string>)

  /**
   * The column names in table order. The INSERT statement of the importer
   * lists them in this same order, and `SELECT *` returns them in it.
   */
  const Columns: seq<string> := [
    "timestamp", "eventName", "MSISDN", "ip", "crName", "classIdentifier",
    "maxUploadBitRate", "maxDownloadBitRate",
    "fup_to_full", "full_to_fup", "fup_status", "multisim_flag"]

  /** The two FLOAT columns; all the others are VARCHAR. */
  const FloatColumns: set<string> := {"maxUploadBitRate", "maxDownloadBitRate"}

  /** A VARCHAR cell: NULL or its text. */
  function TextCell(o: Option<string>): SqlValue
  {
    match o
    case None => SqlNull
    case Some(s) => SqlText(s)
  }

  /** A FLOAT cell: NULL or its number. */
  function FloatCell(o: Option<real>): SqlValue
  {
    match o
    case None => SqlNull
    case Some(x) => SqlFloat(x)
  }

  /** The value of the named column of a row; VARCHAR columns never yield a number, FLOAT columns never text. */
  function Column(e: Event, name: string): (v: SqlValue)
    requires name in Columns
    ensures name in FloatColumns ==> !v.SqlText?
    ensures name !in FloatColumns ==> !v.SqlFloat?
  {
    if name == "timestamp" then TextCell(e.timestamp)
    else if name == "eventName" then TextCell(e.eventName)
    else if name == "MSISDN" then TextCell(e.msisdn)
    else if name == "ip" then TextCell(e.ip)
    else if name == "crName" then TextCell(e.crName)
    else if name == "classIdentifier" then TextCell(e.classIdentifier)
    else if name == "maxUploadBitRate" then FloatCell(e.maxUploadBitRate)
    else if name == "maxDownloadBitRate" then FloatCell(e.maxDownloadBitRate)
    else if name == "fup_to_full" then TextCell(e.fupToFull)
    else if name == "full_to_fup" then TextCell(e.fullToFup)
    else if name == "fup_status" then TextCell(e.fupStatus)
    else TextCell(e.multisimFlag)
  }
}
