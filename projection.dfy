/**
 * The column lists the lookup endpoints select: `eventName === 1` picks the
 * class/bitrate columns, any other value (or none) the ip/session columns.
 */
module Projection {
  import opened Options
  import opened Schema
  import opened Selection

  /** The columns both views share. */
  const KeyColumns: set<string> := {"timestamp", "eventName", "MSISDN"}

  const BitRateView: seq<string> := ["timestamp", "eventName", "MSISDN", "classIdentifier", "maxUploadBitRate", "maxDownloadBitRate"]
  const SessionView: seq<string> := ["timestamp", "eventName", "MSISDN", "ip", "crName", "fup_to_full", "full_to_fup", "fup_status", "multisim_flag"]

  /** The columns only the bitrate view has, and those only the session view has. */
  const BitRateOnly: set<string> := {"classIdentifier", "maxUploadBitRate", "maxDownloadBitRate"}
  const SessionOnly: set<string> := {"ip", "crName", "fup_to_full", "full_to_fup", "fup_status", "multisim_flag"}

  /** `eventName === 1`: strictly the JSON number one, not the string "1". */
  predicate WantsBitRates(eventName: Option<Json>)
  {
    eventName == Some(JNumber(1.0))
  }

  function ViewFor(eventName: Option<Json>): (cols: seq<string>)
    ensures forall k | 0 <= k < |cols| :: cols[k] in Columns && '?' !in cols[k]
  {
    if WantsBitRates(eventName) then BitRateView else SessionView
  }

  /** A result row as the driver returns it: column name to cell. */
  type Record = map<string, SqlValue>

  /** The selected columns of one row. */
  function Project(e: Event, cols: seq<string>): Record
    requires forall k | 0 <= k < |cols| :: cols[k] in Columns
  {
    map c | c in cols :: Column(e, c)
  }

  function ProjectAll(events: seq<Event>, cols: seq<string>): (rs: seq<Record>)
    requires forall k | 0 <= k < |cols| :: cols[k] in Columns
    ensures |rs| == |events|
    ensures forall i | 0 <= i < |events| :: rs[i] == Project(events[i], cols)
  {
    if events == [] then [] else [Project(events[0], cols)] + ProjectAll(events[1..], cols)
  }

  lemma BitRateViewColumns()
    ensures (set c | c in BitRateView) == KeyColumns + BitRateOnly
  {
  }

  lemma SessionViewColumns()
    ensures (set c | c in SessionView) == KeyColumns + SessionOnly
  {
  }

  lemma AttributeSetsDisjoint()
    ensures BitRateOnly !! SessionOnly
    ensures (KeyColumns + BitRateOnly) !! SessionOnly
    ensures (KeyColumns + SessionOnly) !! BitRateOnly
  {
  }

  /** The projection never mixes the two attribute sets: each view has its own columns and none of the other's. */
  lemma NoMixing(e: Event, eventName: Option<Json>)
    ensures BitRateOnly !! SessionOnly
    ensures var keys := Project(e, ViewFor(eventName)).Keys;
      && (WantsBitRates(eventName) ==> keys == KeyColumns + BitRateOnly && keys !! SessionOnly)
      && (!WantsBitRates(eventName) ==> keys == KeyColumns + SessionOnly && keys !! BitRateOnly)
  {
    AttributeSetsDisjoint();
    if WantsBitRates(eventName) {
      BitRateViewColumns();
    } else {
      SessionViewColumns();
    }
  }
}
