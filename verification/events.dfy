/**
 * One row of the analyser's event table: what `parse_log` records for a kept
 * log line. The `Date` and `Time` columns are renderings of the timestamp
 * (`Calendar.DateText`, `Calendar.TimeText`), so the row keeps the timestamp
 * itself.
 */
module Events {
  import opened Ordering
  import opened Calendar
  import opened Config

  datatype Event = Event(ip: string, port: nat, role: PortRole, pattern: string, length: nat, stamp: Stamp)

  // ---- the columns, as functions the grouping operations take ----

  function IpOf(e: Event): string { e.ip }

  function PortOf(e: Event): nat { e.port }

  function PatternOf(e: Event): string { e.pattern }

  function RoleOf(e: Event): PortRole { e.role }

  function DateOf(e: Event): Date { e.stamp.date }

  /** The period `to_period('M')` puts the event in. */
  function MonthKey(e: Event): Month { MonthOf(e.stamp.date) }

  // ---- the earliest and latest timestamps of a group ----

  /**
   * The earliest and the latest timestamp of a non-empty group: the first
   * and last element after sorting the group's timestamps.
   */
  function Bounds(xs: seq<Event>): (b: (Stamp, Stamp))
    requires |xs| > 0
    ensures Instant(b.0) <= Instant(b.1)
    ensures forall e :: e in xs ==> Instant(b.0) <= Instant(e.stamp) <= Instant(b.1)
  {
    if |xs| == 1 then
      (xs[0].stamp, xs[0].stamp)
    else
      var r := Bounds(xs[1..]);
      assert forall e :: e in xs ==> e == xs[0] || e in xs[1..];
      var lo := if Instant(xs[0].stamp) < Instant(r.0) then xs[0].stamp else r.0;
      var hi := if Instant(r.1) < Instant(xs[0].stamp) then xs[0].stamp else r.1;
      (lo, hi)
  }

  /** Both bounds are timestamps of rows of the group. */
  lemma {:induction false} BoundsAttained(xs: seq<Event>)
    requires |xs| > 0
    ensures exists i :: 0 <= i < |xs| && xs[i].stamp == Bounds(xs).0
    ensures exists i :: 0 <= i < |xs| && xs[i].stamp == Bounds(xs).1
  {
    if |xs| > 1 {
      BoundsAttained(xs[1..]);
      var i :| 0 <= i < |xs[1..]| && xs[1..][i].stamp == Bounds(xs[1..]).0;
      var j :| 0 <= j < |xs[1..]| && xs[1..][j].stamp == Bounds(xs[1..]).1;
      assert xs[i + 1].stamp == Bounds(xs[1..]).0 && xs[j + 1].stamp == Bounds(xs[1..]).1;
    } else {
      assert xs[0].stamp == Bounds(xs).0;
    }
  }

  /** Seconds from the earliest to the latest row: `(last - first).total_seconds()`. */
  function Elapsed(xs: seq<Event>): nat
    requires |xs| > 0
  {
    Instant(Bounds(xs).1) - Instant(Bounds(xs).0)
  }
}
