/**
 * `generate_summary_by_ip`: one entry per source address, ascending, with
 * its activity on each date (first and last attack, duration, number of
 * events, attack types), its pattern statistics and the game-server and
 * SourceTV ports it hit.
 */
module ReportByIp {
  import opened Ordering
  import opened Tally
  import opened Calendar
  import opened Config
  import opened Events
  import opened Durations

  /** When a day's activity started and ended, and the seconds between the two. */
  datatype Timeline = Timeline(first: Stamp, last: Stamp, elapsed: nat)

  datatype DateActivity = DateActivity(date: Date, timeline: Timeline, events: nat, types: seq<string>)

  datatype IpSummary = IpSummary(
    ip: string,
    activity: seq<DateActivity>,
    statistics: map<string, nat>,
    gameServerPorts: seq<nat>,
    sourceTvPorts: seq<nat>)

  /** The key under which the statistics hold the address's number of events. */
  const TotalKey := "Total_Events"

  /** The timeline of a non-empty group: its earliest and latest timestamps and the seconds between them. */
  function TimelineOf(g: seq<Event>): (t: Timeline)
    requires |g| > 0
    ensures exists i :: 0 <= i < |g| && g[i].stamp == t.first
    ensures exists i :: 0 <= i < |g| && g[i].stamp == t.last
    ensures forall e :: e in g ==> Instant(t.first) <= Instant(e.stamp) <= Instant(t.last)
    ensures t.elapsed == Instant(t.last) - Instant(t.first)
    ensures |g| == 1 ==> t.elapsed == 0
  {
    var b := Bounds(g);
    BoundsAttained(g);
    Timeline(b.0, b.1, Elapsed(g))
  }

  /** The `Attack_Duration` text of a day with `events` events: "0 seconds" for one event, else the rendered span. */
  function DurationText(events: nat, t: Timeline): string {
    if events > 1 then IpDuration(t.elapsed) else "0 seconds"
  }

  /**
   * The single-event shortcut agrees with the rendering: a day's duration
   * text is always the `IpDuration` rendering of its span.
   */
  lemma DurationTextIsRendering(g: seq<Event>)
    requires |g| > 0
    ensures DurationText(|g|, TimelineOf(g)) == IpDuration(TimelineOf(g).elapsed)
  {
    if |g| == 1 {
      IpDurationZero();
    }
  }

  /** The activity of group `g` on date `d`. */
  function DayActivity(g: seq<Event>, d: Date): (a: DateActivity)
    requires Count(g, DateOf, d) > 0
    ensures a.date == d && a.events == Count(g, DateOf, d)
    ensures forall e :: e in g && e.stamp.date == d ==>
      Instant(a.timeline.first) <= Instant(e.stamp) <= Instant(a.timeline.last)
    ensures Ascending(a.types, StrLt)
    ensures forall p :: p in a.types <==> exists e :: e in g && e.stamp.date == d && e.pattern == p
  {
    var dg := Select(g, DateOf, d);
    StrLtTotal();
    var types := KeysOf(dg, PatternOf, StrLt);
    forall p
      ensures p in types <==> exists e :: e in g && e.stamp.date == d && e.pattern == p
    {
      CountPositive(dg, PatternOf, p);
    }
    DateActivity(d, TimelineOf(dg), |dg|, types)
  }

  /**
   * `Total_Statistics`: the number of events under `Total_Events`, then
   * `update` with the count of every pattern that occurs, so a pattern of
   * that very name would overwrite the total.
   */
  function Statistics(g: seq<Event>): (m: map<string, nat>)
    ensures TotalKey in m
    ensures m[TotalKey] == (if Count(g, PatternOf, TotalKey) > 0 then Count(g, PatternOf, TotalKey) else |g|)
    ensures forall p :: p != TotalKey ==> (p in m <==> Count(g, PatternOf, p) > 0)
    ensures forall p :: p in m && p != TotalKey ==> m[p] == Count(g, PatternOf, p)
  {
    map[TotalKey := |g|] + PatternCounts(g)
  }

  /** `value_counts()` of the patterns as a dictionary: every pattern that occurs, with its count. */
  function PatternCounts(g: seq<Event>): (m: map<string, nat>)
    ensures forall p :: p in m <==> Count(g, PatternOf, p) > 0
    ensures forall p :: p in m ==> m[p] == Count(g, PatternOf, p)
  {
    StrLtTotal();
    var ps := KeysOf(g, PatternOf, StrLt);
    map p | p in ps :: Count(g, PatternOf, p)
  }

  /** The role recorded on the first row of `g` with port `p`: `iloc[0]` of the port's rows. */
  function FirstRole(g: seq<Event>, p: nat): PortRole
    requires Count(g, PortOf, p) > 0
  {
    Select(g, PortOf, p)[0].role
  }

  /** The ports of `ps`, in order, whose first row in `g` carries `role`. */
  function PortsWithRole(g: seq<Event>, ps: seq<nat>, role: PortRole): (r: seq<nat>)
    requires forall p :: p in ps ==> Count(g, PortOf, p) > 0
    requires Ascending(ps, NatLt)
    ensures Ascending(r, NatLt)
    ensures forall p :: p in r <==> p in ps && FirstRole(g, p) == role
  {
    if |ps| == 0 then []
    else
      var rest := PortsWithRole(g, ps[1..], role);
      assert forall p :: p in rest ==> NatLt(ps[0], p);
      if FirstRole(g, ps[0]) == role then [ps[0]] + rest else rest
  }

  /** The distinct ports of `g`, ascending, whose rows are marked with `role`. */
  function RolePorts(g: seq<Event>, role: PortRole): (r: seq<nat>)
    ensures Ascending(r, NatLt)
    ensures forall p :: p in r <==> Count(g, PortOf, p) > 0 && FirstRole(g, p) == role
  {
    NatLtTotal();
    PortsWithRole(g, KeysOf(g, PortOf, NatLt), role)
  }

  function ActiveDates(g: seq<Event>): seq<Date> {
    DateLtTotal();
    KeysOf(g, DateOf, DateLt)
  }

  /** `Activity_By_Date`: the activity of each date of `g`, ascending. */
  function Activity(g: seq<Event>): seq<DateActivity> {
    var ds := ActiveDates(g);
    seq(|ds|, i requires 0 <= i < |ds| => DayActivity(g, ds[i]))
  }

  /** The entry of address `ip`, built from the address's group. */
  function IpEntry(events: seq<Event>, ip: string): (r: IpSummary)
    requires Count(events, IpOf, ip) > 0
  {
    var g := Select(events, IpOf, ip);
    IpSummary(ip, Activity(g), Statistics(g), RolePorts(g, GameServer), RolePorts(g, SourceTV))
  }

  function Addresses(events: seq<Event>): seq<string> {
    StrLtTotal();
    KeysOf(events, IpOf, StrLt)
  }

  /** The report: one entry per address, ascending; empty exactly when there are no events. */
  function ByIp(events: seq<Event>): (r: seq<IpSummary>)
    ensures |events| == 0 <==> |r| == 0
  {
    var ks := Addresses(events);
    assert |events| > 0 ==> IpOf(events[0]) in ks;
    seq(|ks|, i requires 0 <= i < |ks| => IpEntry(events, ks[i]))
  }

  lemma ByIpKeys(events: seq<Event>)
    ensures |ByIp(events)| == |Addresses(events)|
    ensures forall i :: 0 <= i < |ByIp(events)| ==> ByIp(events)[i] == IpEntry(events, Addresses(events)[i])
  {
  }

  /** Addresses ascending (so none twice), and every address that occurs has an entry. */
  lemma ByIpAddresses(events: seq<Event>, ip: string)
    ensures forall i, j :: 0 <= i < j < |ByIp(events)| ==> StrLt(ByIp(events)[i].ip, ByIp(events)[j].ip)
    ensures (exists i :: 0 <= i < |ByIp(events)| && ByIp(events)[i].ip == ip) <==> exists e :: e in events && e.ip == ip
  {
    var r, ks := ByIp(events), Addresses(events);
    ByIpKeys(events);
    StrLtTotal();
    assert forall i :: 0 <= i < |r| ==> r[i].ip == ks[i];
    assert ip in ks <==> exists e :: e in events && e.ip == ip by {
      CountPositive(events, IpOf, ip);
    }
    if ip in ks {
      var i :| 0 <= i < |ks| && ks[i] == ip;
      assert r[i].ip == ip;
    }
  }

  function EventsOn(a: DateActivity): nat { a.events }

  lemma ActivityDates(g: seq<Event>)
    ensures |Activity(g)| == |ActiveDates(g)|
    ensures forall i :: 0 <= i < |Activity(g)| ==> Activity(g)[i] == DayActivity(g, ActiveDates(g)[i])
  {
  }

  /** The dates of an address's activity ascend, so none is listed twice. */
  lemma ActivityOrder(g: seq<Event>)
    ensures forall i, j :: 0 <= i < j < |Activity(g)| ==> DateLt(Activity(g)[i].date, Activity(g)[j].date)
  {
    DateLtTotal();
    ActivityDates(g);
  }

  /** Each date of the group has its activity, and no other date has one. */
  lemma ActivityCoverage(g: seq<Event>, d: Date)
    ensures (exists i :: 0 <= i < |Activity(g)| && Activity(g)[i].date == d) <==> exists e :: e in g && e.stamp.date == d
  {
    var ds, a := ActiveDates(g), Activity(g);
    assert d in ds <==> exists e :: e in g && e.stamp.date == d by {
      DateLtTotal();
      CountPositive(g, DateOf, d);
    }
    ActivityDates(g);
    if d in ds {
      var i :| 0 <= i < |ds| && ds[i] == d;
      assert a[i].date == d;
    }
  }

  /** The per-date event counts add up to the group's number of events. */
  lemma ActivityTotal(g: seq<Event>)
    ensures SumNat(Totals(Activity(g), EventsOn)) == |g|
  {
    var ds, t := ActiveDates(g), Totals(Activity(g), EventsOn);
    assert |t| == |ds| && forall i :: 0 <= i < |ds| ==> t[i] == Count(g, DateOf, ds[i]) by {
      ActivityDates(g);
    }
    assert Distinct(ds) && forall k :: k in ds <==> Count(g, DateOf, k) > 0 by {
      DateLtTotal();
      AscendingDistinct(ds, DateLt);
    }
    GroupTotals(ds, g, DateOf, t);
  }

  /** The activity listed for address `ip` covers exactly the events of that address. */
  lemma IpEntryActivity(events: seq<Event>, ip: string, d: Date)
    requires Count(events, IpOf, ip) > 0
    ensures (exists i :: 0 <= i < |IpEntry(events, ip).activity| && IpEntry(events, ip).activity[i].date == d)
      <==> exists e :: e in events && e.ip == ip && e.stamp.date == d
    ensures SumNat(Totals(IpEntry(events, ip).activity, EventsOn)) == Count(events, IpOf, ip)
  {
    var g := Select(events, IpOf, ip);
    assert IpEntry(events, ip).activity == Activity(g);
    ActivityCoverage(g, d);
    ActivityTotal(g);
    if exists e :: e in events && e.ip == ip && e.stamp.date == d {
      var e :| e in events && e.ip == ip && e.stamp.date == d;
      assert e in g;
    }
    if exists e :: e in g && e.stamp.date == d {
      var e :| e in g && e.stamp.date == d;
      assert e in events && e.ip == ip;
    }
  }

  /**
   * For events whose role is the classification of their port (as the
   * extractor records them), the game-server list holds exactly the
   * configured game-server ports the address hit, and the SourceTV list
   * exactly the configured SourceTV ports that are not also game-server
   * ports; the two lists therefore never share a port.
   */
  lemma IpEntryPorts(events: seq<Event>, ip: string, game: seq<int>, tv: seq<int>, p: nat)
    requires Count(events, IpOf, ip) > 0
    requires forall e :: e in events ==> e.role == ClassifyPort(e.port, game, tv)
    ensures p in IpEntry(events, ip).gameServerPorts <==>
      (exists e :: e in events && e.ip == ip && e.port == p) && p in game
    ensures p in IpEntry(events, ip).sourceTvPorts <==>
      (exists e :: e in events && e.ip == ip && e.port == p) && p !in game && p in tv
  {
    var g := Select(events, IpOf, ip);
    var r := IpEntry(events, ip);
    assert r.gameServerPorts == RolePorts(g, GameServer) && r.sourceTvPorts == RolePorts(g, SourceTV);
    RolePortsClassified(g, game, tv, p);
    assert (exists e :: e in g && e.port == p) <==> exists e :: e in events && e.ip == ip && e.port == p;
  }

  /** With roles recorded by classification, the role lists follow the configured port lists. */
  lemma RolePortsClassified(g: seq<Event>, game: seq<int>, tv: seq<int>, p: nat)
    requires forall e :: e in g ==> e.role == ClassifyPort(e.port, game, tv)
    ensures p in RolePorts(g, GameServer) <==> (exists e :: e in g && e.port == p) && p in game
    ensures p in RolePorts(g, SourceTV) <==> (exists e :: e in g && e.port == p) && p !in game && p in tv
  {
    CountPositive(g, PortOf, p);
    if Count(g, PortOf, p) > 0 {
      var row := Select(g, PortOf, p)[0];
      assert row in Select(g, PortOf, p);
      assert FirstRole(g, p) == ClassifyPort(p, game, tv);
    }
  }
}
