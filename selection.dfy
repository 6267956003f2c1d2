/**
 * What the lookup endpoints' SELECT statements mean over the `events` table:
 * the WHERE filters, DISTINCT, LIKE '%term%' and the latest-per-MSISDN
 * group-max join, each next to a direct description that it is proved to meet.
 * Result order is whatever MySQL chooses; here results keep table order.
 */
module Selection {
  import opened Options
  import opened Schema
  import Lex

  /** A value of a JSON request body. */
  datatype Json = JNull | JBool(b: bool) | JNumber(n: real) | JString(s: string) | JArray(items: seq<Json>) | JObject

  /**
   * How MySQL compares a VARCHAR cell with a numeric parameter: it converts the
   * text to a double. The conversion is left abstract.
   */
  datatype Dialect = Dialect(toNumber: string -> real)

  /**
   * `cell = ?` with a bound parameter. NULL equals nothing; text compares as text;
   * a number (or a boolean, written as `true`/`false`, which MySQL reads as 1 and 0) compares with the
   * converted cell. Array and object parameters are taken to match nothing.
   */
  predicate SqlEquals(d: Dialect, cell: Option<string>, p: Json)
  {
    && cell.Some?
    && match p
       case JString(s) => s == cell.value
       case JNumber(n) => d.toNumber(cell.value) == n
       case JBool(b) => d.toNumber(cell.value) == if b then 1.0 else 0.0
       case _ => false
  }

  /** `cell IN (?, ..., ?)` with the keys bound. */
  predicate InList(d: Dialect, cell: Option<string>, keys: seq<Json>)
  {
    exists k | 0 <= k < |keys| :: SqlEquals(d, cell, keys[k])
  }

  /** The optional `AND eventName = ?`. */
  predicate Passes(d: Dialect, e: Event, filter: Option<Json>)
  {
    filter.None? || SqlEquals(d, e.eventName, filter.value)
  }

  /** `WHERE MSISDN IN (keys) [AND eventName = filter]`. */
  predicate Where(d: Dialect, e: Event, keys: seq<Json>, filter: Option<Json>)
  {
    InList(d, e.msisdn, keys) && Passes(d, e, filter)
  }

  // ----- filtering a table -----

  function Filter<T>(s: seq<T>, p: T -> bool): (r: seq<T>)
    ensures |r| <= |s|
    ensures forall x | x in r :: x in s && p(x)
  {
    if s == [] then [] else (if p(s[0]) then [s[0]] else []) + Filter(s[1..], p)
  }

  lemma {:induction false} FilterMembers<T>(s: seq<T>, p: T -> bool, x: T)
    ensures x in Filter(s, p) <==> x in s && p(x)
    decreases |s|
  {
    if s != [] {
      FilterMembers(s[1..], p, x);
      assert s == [s[0]] + s[1..];
    }
  }

  /** Two conditions that agree on every row of the table filter it alike. */
  lemma {:induction false} FilterAgrees<T>(s: seq<T>, p: T -> bool, q: T -> bool)
    requires forall x | x in s :: p(x) == q(x)
    ensures Filter(s, p) == Filter(s, q)
    decreases |s|
  {
    if s != [] {
      assert forall x | x in s[1..] :: x in s;
      FilterAgrees(s[1..], p, q);
    }
  }

  // ----- the latest row per MSISDN -----

  /** A row of the group `key` that the subquery's MAX looks at. */
  predicate InGroup(d: Dialect, e: Event, keys: seq<Json>, filter: Option<Json>, key: string)
  {
    Where(d, e, keys, filter) && e.msisdn == Some(key) && e.timestamp.Some?
  }

  /** `MAX(timestamp)` of one group; NULL timestamps are skipped, and an all-NULL group gives NULL. */
  function GroupMax(d: Dialect, events: seq<Event>, keys: seq<Json>, filter: Option<Json>, key: string): Option<string>
  {
    if events == [] then None
    else
      var rest := GroupMax(d, events[1..], keys, filter, key);
      if !InGroup(d, events[0], keys, filter, key) then rest
      else if rest.None? then events[0].timestamp
      else Some(Lex.Max(events[0].timestamp.value, rest.value))
  }

  /** GroupMax is the greatest timestamp of the group, present among its rows, and NULL only for a group without timestamps. */
  lemma {:induction false} GroupMaxIsMaximum(d: Dialect, events: seq<Event>, keys: seq<Json>, filter: Option<Json>, key: string)
    ensures var m := GroupMax(d, events, keys, filter, key);
      && (m.None? <==> forall i | 0 <= i < |events| :: !InGroup(d, events[i], keys, filter, key))
      && (m.Some? ==> exists i | 0 <= i < |events| :: InGroup(d, events[i], keys, filter, key) && events[i].timestamp == m)
      && (forall i | 0 <= i < |events| && InGroup(d, events[i], keys, filter, key) ::
            m.Some? && Lex.Le(events[i].timestamp.value, m.value))
    decreases |events|
  {
    if events != [] {
      var tail := events[1..];
      GroupMaxIsMaximum(d, tail, keys, filter, key);
      var rest := GroupMax(d, tail, keys, filter, key);
      var m := GroupMax(d, events, keys, filter, key);
      assert forall i | 1 <= i < |events| :: events[i] == tail[i - 1];
      if InGroup(d, events[0], keys, filter, key) {
        var t := events[0].timestamp.value;
        if rest.None? {
          Lex.Reflexive(t);
        } else {
          var j :| 0 <= j < |tail| && InGroup(d, tail[j], keys, filter, key) && tail[j].timestamp == rest;
          assert events[j + 1] == tail[j];
          forall i | 0 <= i < |events| && InGroup(d, events[i], keys, filter, key)
            ensures Lex.Le(events[i].timestamp.value, m.value)
          {
            if i > 0 {
              Lex.Transitive(events[i].timestamp.value, rest.value, m.value);
            }
          }
        }
      } else {
        if m.Some? {
          var j :| 0 <= j < |tail| && InGroup(d, tail[j], keys, filter, key) && tail[j].timestamp == m;
          assert events[j + 1] == tail[j];
        }
      }
    }
  }

  /** The MSISDNs the subquery groups by. */
  function GroupKeys(d: Dialect, events: seq<Event>, keys: seq<Json>, filter: Option<Json>): set<string>
  {
    set i | 0 <= i < |events| && events[i].msisdn.Some? && Where(d, events[i], keys, filter) :: events[i].msisdn.value
  }

  /**
   * The derived table `latest_events`:
   * `SELECT MSISDN, MAX(timestamp) AS latest_timestamp FROM events WHERE ... GROUP BY MSISDN`.
   */
  function LatestTimestamps(d: Dialect, events: seq<Event>, keys: seq<Json>, filter: Option<Json>): map<string, Option<string>>
  {
    map key | key in GroupKeys(d, events, keys, filter) :: GroupMax(d, events, keys, filter, key)
  }

  /** The join condition: same MSISDN, timestamp equal to the group's latest, and the outer `AND e.eventName = ?`. */
  predicate Joined(d: Dialect, e: Event, latest: map<string, Option<string>>, outer: Option<Json>)
  {
    && e.msisdn.Some?
    && e.msisdn.value in latest
    && latest[e.msisdn.value].Some?
    && e.timestamp == latest[e.msisdn.value]
    && Passes(d, e, outer)
  }

  /**
   * The statement of `/api/getLatestDataByMSISDNs`: the subquery filtered by
   * `inner`, joined back to every row of `events` and filtered again by `outer`.
   */
  function GroupMaxJoin(d: Dialect, events: seq<Event>, keys: seq<Json>, inner: Option<Json>, outer: Option<Json>): seq<Event>
  {
    var latest := LatestTimestamps(d, events, keys, inner);
    Filter(events, e => Joined(d, e, latest, outer))
  }

  /**
   * The direct description: a row is the latest of its MSISDN when it passes the
   * filters, has a timestamp, and no passing row of the same MSISDN has a later one.
   */
  ghost predicate IsLatest(d: Dialect, events: seq<Event>, keys: seq<Json>, filter: Option<Json>, e: Event)
  {
    && Where(d, e, keys, filter)
    && e.timestamp.Some?
    && forall i | 0 <= i < |events| && InGroup(d, events[i], keys, filter, e.msisdn.value) ::
         Lex.Le(events[i].timestamp.value, e.timestamp.value)
  }

  /** On one row of the table, the join condition holds exactly when the row is the latest of its MSISDN. */
  lemma JoinedIffLatest(d: Dialect, events: seq<Event>, keys: seq<Json>, filter: Option<Json>, e: Event)
    requires e in events
    ensures Joined(d, e, LatestTimestamps(d, events, keys, filter), filter) <==> IsLatest(d, events, keys, filter, e)
  {
    var latest := LatestTimestamps(d, events, keys, filter);
    if e.msisdn.Some? {
      var key := e.msisdn.value;
      GroupMaxIsMaximum(d, events, keys, filter, key);
      var m := GroupMax(d, events, keys, filter, key);
      if Joined(d, e, latest, filter) {
        var i :| 0 <= i < |events| && events[i].msisdn.Some? && Where(d, events[i], keys, filter) && events[i].msisdn.value == key;
        var k :| 0 <= k < |keys| && SqlEquals(d, events[i].msisdn, keys[k]);
        assert SqlEquals(d, e.msisdn, keys[k]);
        assert Where(d, e, keys, filter);
      }
      if IsLatest(d, events, keys, filter, e) {
        var i :| 0 <= i < |events| && events[i] == e;
        assert key in GroupKeys(d, events, keys, filter);
        assert InGroup(d, events[i], keys, filter, key);
        var j :| 0 <= j < |events| && InGroup(d, events[j], keys, filter, key) && events[j].timestamp == m;
        Lex.Antisymmetric(e.timestamp.value, m.value);
      }
    }
  }

  /** The group-max join with one filter in both places returns exactly the latest rows, in table order, duplicates kept. */
  lemma GroupMaxJoinMeaning(d: Dialect, events: seq<Event>, keys: seq<Json>, filter: Option<Json>)
    ensures GroupMaxJoin(d, events, keys, filter, filter) == Filter(events, e => IsLatest(d, events, keys, filter, e))
  {
    var latest := LatestTimestamps(d, events, keys, filter);
    forall e | e in events
      ensures Joined(d, e, latest, filter) == IsLatest(d, events, keys, filter, e)
    {
      JoinedIffLatest(d, events, keys, filter, e);
    }
    FilterAgrees(events, e => Joined(d, e, latest, filter), e => IsLatest(d, events, keys, filter, e));
  }

  /** Soundness and completeness: a row is returned if and only if it is a latest row of the table. */
  lemma GroupMaxJoinMembers(d: Dialect, events: seq<Event>, keys: seq<Json>, filter: Option<Json>, e: Event)
    ensures e in GroupMaxJoin(d, events, keys, filter, filter) <==> e in events && IsLatest(d, events, keys, filter, e)
  {
    GroupMaxJoinMeaning(d, events, keys, filter);
    FilterMembers(events, e => IsLatest(d, events, keys, filter, e), e);
  }

  /** Ties are not broken: two returned rows of one MSISDN carry the same timestamp. */
  lemma GroupMaxJoinTies(d: Dialect, events: seq<Event>, keys: seq<Json>, filter: Option<Json>, e1: Event, e2: Event)
    requires e1 in GroupMaxJoin(d, events, keys, filter, filter)
    requires e2 in GroupMaxJoin(d, events, keys, filter, filter)
    requires e1.msisdn == e2.msisdn
    ensures e1.timestamp == e2.timestamp
  {
    GroupMaxJoinMembers(d, events, keys, filter, e1);
    GroupMaxJoinMembers(d, events, keys, filter, e2);
    var i1 :| 0 <= i1 < |events| && events[i1] == e1;
    var i2 :| 0 <= i2 < |events| && events[i2] == e2;
    assert InGroup(d, events[i1], keys, filter, e2.msisdn.value);
    assert InGroup(d, events[i2], keys, filter, e1.msisdn.value);
    Lex.Antisymmetric(e1.timestamp.value, e2.timestamp.value);
  }

  // ----- DISTINCT, LIKE and LIMIT -----

  /** DISTINCT: each value once, in order of first appearance. */
  function Distinct<T(==)>(s: seq<T>): (r: seq<T>)
    ensures forall x | x in s :: x in r
    ensures forall x | x in r :: x in s
    ensures forall i, j | 0 <= i < j < |r| :: r[i] != r[j]
  {
    if s == [] then []
    else
      var r := Distinct(s[..|s| - 1]);
      assert s == s[..|s| - 1] + [s[|s| - 1]];
      if s[|s| - 1] in r then r else r + [s[|s| - 1]]
  }

  /** `s LIKE '%term%'`, with `%` and `_` inside the term taken literally. */
  predicate Contains(s: string, term: string)
  {
    exists i | 0 <= i <= |s| :: OccursAt(s, term, i)
  }

  predicate OccursAt(s: string, term: string, i: nat)
  {
    i + |term| <= |s| && s[i..i + |term|] == term
  }

  /** The MSISDN column of a list of rows. */
  function MsisdnColumn(events: seq<Event>): (r: seq<SqlValue>)
    ensures |r| == |events|
    ensures forall i | 0 <= i < |events| :: r[i] == Column(events[i], "MSISDN")
  {
    if events == [] then [] else [Column(events[0], "MSISDN")] + MsisdnColumn(events[1..])
  }

  /** `LIMIT count OFFSET offset` on a result list. */
  function Page<T>(s: seq<T>, offset: nat, count: nat): (r: seq<T>)
    ensures |r| == if offset >= |s| then 0 else if count < |s| - offset then count else |s| - offset
    ensures forall j | 0 <= j < |r| :: r[j] == s[offset + j]
  {
    if offset >= |s| then []
    else if count < |s| - offset then s[offset..offset + count]
    else s[offset..]
  }
}
