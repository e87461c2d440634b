/**
 * `generate_summary_by_day`: one entry per date, latest first, with the
 * day's ports (busiest first) and, for each port, its pattern tally and its
 * five most active attackers with their events spread over the four
 * six-hour quarters of the day.
 */
module ReportByDay {
  import opened Ordering
  import opened Tally
  import opened Calendar
  import opened Config
  import opened Events
  import opened ReportByPort

  /** The `time_distribution` of an attacker: its events per six-hour quarter of the day. */
  datatype Quarters = Quarters(night: nat, morning: nat, afternoon: nat, evening: nat)

  datatype DayAttacker = DayAttacker(ip: string, total: nat, breakdown: seq<Bin<string>>, distribution: Quarters)

  datatype DayPort = DayPort(port: nat, role: PortRole, total: nat, breakdown: seq<Bin<string>>, attackers: seq<DayAttacker>)

  datatype DaySummary = DaySummary(date: Date, total: nat, ports: seq<DayPort>)

  /** How many attackers a port lists within one day. */
  const TopDayAttackers: nat := 5

  // ---- the six-hour buckets ----

  /**
   * The quarter an hour falls into: 0 for 00:00-06:00, 1 for 06:00-12:00,
   * 2 for 12:00-18:00 and 3 for everything else.
   */
  function QuarterOf(hour: nat): nat {
    if hour < 6 then 0 else if hour < 12 then 1 else if hour < 18 then 2 else 3
  }

  function HourQuarter(e: Event): nat { QuarterOf(e.stamp.hour) }

  function QuartersTotal(q: Quarters): nat {
    q.night + q.morning + q.afternoon + q.evening
  }

  /** `q` with one more event in quarter `k`. */
  function Tick(q: Quarters, k: nat): (r: Quarters)
    ensures QuartersTotal(r) == QuartersTotal(q) + 1
  {
    if k == 0 then Quarters(q.night + 1, q.morning, q.afternoon, q.evening)
    else if k == 1 then Quarters(q.night, q.morning + 1, q.afternoon, q.evening)
    else if k == 2 then Quarters(q.night, q.morning, q.afternoon + 1, q.evening)
    else Quarters(q.night, q.morning, q.afternoon, q.evening + 1)
  }

  /** The buckets filled row by row, as the loop over `iterrows()` does. */
  function Distribution(rows: seq<Event>): (q: Quarters)
    ensures QuartersTotal(q) == |rows|
  {
    if rows == [] then Quarters(0, 0, 0, 0) else Tick(Distribution(rows[1..]), HourQuarter(rows[0]))
  }

  /** Bucket `k` of `q`, counting the quarters from midnight. */
  function Bucket(q: Quarters, k: nat): nat {
    if k == 0 then q.night else if k == 1 then q.morning else if k == 2 then q.afternoon else q.evening
  }

  lemma {:induction false} DistributionBucket(rows: seq<Event>, k: nat)
    requires k < 4
    ensures Bucket(Distribution(rows), k) == Count(rows, HourQuarter, k)
  {
    if |rows| > 0 {
      var q, j := Distribution(rows[1..]), HourQuarter(rows[0]);
      DistributionBucket(rows[1..], k);
      CountCons(rows, HourQuarter, k);
      BucketTick(q, j, k);
      assert Distribution(rows) == Tick(q, j);
    }
  }

  /** A tick adds one to its own bucket and leaves the other three alone. */
  lemma BucketTick(q: Quarters, j: nat, k: nat)
    requires j < 4 && k < 4
    ensures Bucket(Tick(q, j), k) == Bucket(q, k) + (if j == k then 1 else 0)
  {
  }

  /** Each bucket holds exactly the rows whose hour falls into its quarter. */
  lemma DistributionCounts(rows: seq<Event>)
    ensures Distribution(rows) == Quarters(Count(rows, HourQuarter, 0), Count(rows, HourQuarter, 1),
                                           Count(rows, HourQuarter, 2), Count(rows, HourQuarter, 3))
  {
    DistributionBucket(rows, 0);
    DistributionBucket(rows, 1);
    DistributionBucket(rows, 2);
    DistributionBucket(rows, 3);
  }

  // ---- attackers of one port on one day ----

  /** The entry of attacker `ip` among the rows `pg` of one port on one day. */
  function DayAttackerEntry(pg: seq<Event>, ip: string): (a: DayAttacker)
    requires Count(pg, IpOf, ip) > 0
    ensures a.ip == ip && a.total == Count(pg, IpOf, ip)
    ensures BinTotal(a.breakdown) == a.total && QuartersTotal(a.distribution) == a.total
  {
    var g := Select(pg, IpOf, ip);
    StrLtTotal();
    DayAttacker(ip, |g|, Breakdown(g, PatternOf, StrLt), Distribution(g))
  }

  /** The entries of the attackers `ks` of the rows `pg`, in the order of `ks`. */
  function DayAttackerList(pg: seq<Event>, ks: seq<string>): (r: seq<DayAttacker>)
    requires forall k :: k in ks ==> Count(pg, IpOf, k) > 0
    ensures |r| == |ks|
    ensures forall i :: 0 <= i < |r| ==> r[i].ip == ks[i] && r[i].total == Count(pg, IpOf, ks[i])
  {
    var r := seq(|ks|, i requires 0 <= i < |ks| => DayAttackerEntry(pg, ks[i]));
    assert forall i :: 0 <= i < |r| ==> r[i].ip == ks[i] && r[i].total == Count(pg, IpOf, ks[i]) by {
      forall i | 0 <= i < |r|
        ensures r[i].ip == ks[i] && r[i].total == Count(pg, IpOf, ks[i])
      {
        var e := DayAttackerEntry(pg, ks[i]);
        assert r[i] == e;
      }
    }
    r
  }

  /** All attackers of the rows `pg`, busiest first, equal counts by ascending address. */
  function DayAttackers(pg: seq<Event>): seq<DayAttacker> {
    StrLtTotal();
    DayAttackerList(pg, AttackerRanking(pg))
  }

  lemma DayAttackersKeys(pg: seq<Event>)
    ensures |DayAttackers(pg)| == |AttackerRanking(pg)|
    ensures forall i :: 0 <= i < |DayAttackers(pg)| ==>
      DayAttackers(pg)[i].ip == AttackerRanking(pg)[i] && DayAttackers(pg)[i].total == Count(pg, IpOf, AttackerRanking(pg)[i])
  {
    StrLtTotal();
  }

  // ---- ports of one day ----

  /** The entry of port `p` among the rows `dg` of one day: its first row's role, tallies and top five attackers. */
  function DayPortEntry(dg: seq<Event>, p: nat): (r: DayPort)
    requires Count(dg, PortOf, p) > 0
    ensures r.port == p && r.total == Count(dg, PortOf, p)
    ensures BinTotal(r.breakdown) == r.total
    ensures |r.attackers| <= TopDayAttackers
  {
    var pg := Select(dg, PortOf, p);
    StrLtTotal();
    DayPort(p, pg[0].role, |pg|, Breakdown(pg, PatternOf, StrLt), Top(DayAttackers(pg), TopDayAttackers))
  }

  /** The entries of the ports `ks` of the rows `dg`, in the order of `ks`. */
  function DayPortList(dg: seq<Event>, ks: seq<nat>): (r: seq<DayPort>)
    requires forall k :: k in ks ==> Count(dg, PortOf, k) > 0
    ensures |r| == |ks|
    ensures forall i :: 0 <= i < |r| ==> r[i].port == ks[i] && r[i].total == Count(dg, PortOf, ks[i])
  {
    var r := seq(|ks|, i requires 0 <= i < |ks| => DayPortEntry(dg, ks[i]));
    assert forall i :: 0 <= i < |r| ==> r[i].port == ks[i] && r[i].total == Count(dg, PortOf, ks[i]) by {
      forall i | 0 <= i < |r|
        ensures r[i].port == ks[i] && r[i].total == Count(dg, PortOf, ks[i])
      {
        var e := DayPortEntry(dg, ks[i]);
        assert r[i] == e;
      }
    }
    r
  }

  /** The ports of the rows `dg`, busiest first, equal counts by ascending port. */
  function DayPorts(dg: seq<Event>): seq<DayPort> {
    NatLtTotal();
    DayPortList(dg, PortRanking(dg))
  }

  lemma DayPortsKeys(dg: seq<Event>)
    ensures |DayPorts(dg)| == |PortRanking(dg)|
    ensures forall i :: 0 <= i < |DayPorts(dg)| ==>
      DayPorts(dg)[i].port == PortRanking(dg)[i] && DayPorts(dg)[i].total == Count(dg, PortOf, PortRanking(dg)[i])
  {
    NatLtTotal();
  }

  // ---- the report ----

  /** The entry of date `d`: the number of that day's events and its ports. */
  function DayEntry(events: seq<Event>, d: Date): (r: DaySummary)
    requires Count(events, DateOf, d) > 0
    ensures r.date == d && r.total == Count(events, DateOf, d)
  {
    var dg := Select(events, DateOf, d);
    DaySummary(d, |dg|, DayPorts(dg))
  }

  /** The dates in report order: latest first. */
  function DayKeys(events: seq<Event>): seq<Date> {
    DateLtTotal();
    KeysDescending(events, DateOf, DateLt)
  }

  /** The report: the entry of each date, latest first; empty exactly when there are no events. */
  function ByDay(events: seq<Event>): (r: seq<DaySummary>)
    ensures |events| == 0 <==> |r| == 0
  {
    var ks := DayKeys(events);
    assert |events| > 0 ==> DateOf(events[0]) in ks by {
      if |events| > 0 {
        CountPositive(events, DateOf, DateOf(events[0]));
      }
    }
    seq(|ks|, i requires 0 <= i < |ks| => DayEntry(events, ks[i]))
  }

  lemma ByDayKeys(events: seq<Event>)
    ensures |ByDay(events)| == |DayKeys(events)|
    ensures forall i :: 0 <= i < |ByDay(events)| ==>
      ByDay(events)[i].date == DayKeys(events)[i] && ByDay(events)[i].total == Count(events, DateOf, DayKeys(events)[i])
  {
  }

  /** Latest date first, so no date is listed twice. */
  lemma ByDayOrder(events: seq<Event>)
    ensures forall i, j :: 0 <= i < j < |ByDay(events)| ==> DateLt(ByDay(events)[j].date, ByDay(events)[i].date)
  {
    DateLtTotal();
    ByDayKeys(events);
  }

  /**
   * The entries are sorted by the `Date` column, the `YYYY-MM-DD` text: for
   * printable dates the texts come out strictly descending too.
   */
  lemma ByDayLabels(events: seq<Event>)
    requires forall e :: e in events ==> Printable(e.stamp.date)
    ensures forall i, j :: 0 <= i < j < |ByDay(events)| ==>
      StrLt(DateText(ByDay(events)[j].date), DateText(ByDay(events)[i].date))
  {
    var r, ks := ByDay(events), DayKeys(events);
    DateLtTotal();
    ByDayKeys(events);
    forall i | 0 <= i < |r|
      ensures Printable(r[i].date)
    {
      assert ks[i] in ks;
      CountPositive(events, DateOf, ks[i]);
    }
    forall i, j | 0 <= i < j < |r|
      ensures StrLt(DateText(r[j].date), DateText(r[i].date))
    {
      DateTextOrder(r[j].date, r[i].date);
    }
  }

  /** A date has an entry exactly when some event happened on it. */
  lemma ByDayCoverage(events: seq<Event>, d: Date)
    ensures (exists i :: 0 <= i < |ByDay(events)| && ByDay(events)[i].date == d)
      <==> exists e :: e in events && e.stamp.date == d
  {
    ByDayKeys(events);
    Listed(ByDay(events), DateOfSummary, DayKeys(events), d);
    DateLtTotal();
    CountPositive(events, DateOf, d);
  }

  function DayTotal(r: DaySummary): nat { r.total }

  /** Every event happened on exactly one date: the day totals add up to the number of events. */
  lemma ByDayTotal(events: seq<Event>)
    ensures SumNat(Totals(ByDay(events), DayTotal)) == |events|
  {
    var r, ks := ByDay(events), DayKeys(events);
    var t := Totals(r, DayTotal);
    assert forall i :: 0 <= i < |ks| ==> t[i] == Count(events, DateOf, ks[i]) by {
      ByDayKeys(events);
    }
    assert Distinct(ks) && forall k :: k in ks <==> Count(events, DateOf, k) > 0 by {
      DateLtTotal();
    }
    GroupTotals(ks, events, DateOf, t);
  }

  // ---- the ports of one day ----

  /** Within a day, the busiest port comes first and equal counts keep ascending port order. */
  lemma DayPortsOrder(dg: seq<Event>)
    ensures forall i, j :: 0 <= i < j < |DayPorts(dg)| ==>
      var r := DayPorts(dg);
      r[i].total > r[j].total || (r[i].total == r[j].total && r[i].port < r[j].port)
  {
    NatLtTotal();
    DayPortsKeys(dg);
  }

  /** A port is listed for a day exactly when some event of that day hit it. */
  lemma DayPortsCoverage(dg: seq<Event>, p: nat)
    ensures (exists i :: 0 <= i < |DayPorts(dg)| && DayPorts(dg)[i].port == p) <==> exists e :: e in dg && e.port == p
  {
    DayPortsKeys(dg);
    Listed(DayPorts(dg), PortOfDay, PortRanking(dg), p);
    PortRankingCovers(dg, p);
  }

  function PortOfDay(d: DayPort): nat { d.port }

  function DateOfSummary(s: DaySummary): Date { s.date }

  function DayPortTotal(r: DayPort): nat { r.total }

  /** Any listing of a day's ports, each once, accounts for every event of the day. */
  lemma DayPortListTotal(dg: seq<Event>, ks: seq<nat>)
    requires Distinct(ks) && forall k :: k in ks <==> Count(dg, PortOf, k) > 0
    ensures SumNat(Totals(DayPortList(dg, ks), DayPortTotal)) == |dg|
  {
    var t := Totals(DayPortList(dg, ks), DayPortTotal);
    assert forall i :: 0 <= i < |ks| ==> t[i] == Count(dg, PortOf, ks[i]);
    GroupTotals(ks, dg, PortOf, t);
  }

  /** The port totals of a day add up to the day's events. */
  lemma DayPortsTotal(dg: seq<Event>)
    ensures SumNat(Totals(DayPorts(dg), DayPortTotal)) == |dg|
  {
    NatLtTotal();
    DayPortListTotal(dg, PortRanking(dg));
  }

  /** A day entry lists the ports of that day's events. */
  lemma DayEntryPorts(events: seq<Event>, d: Date)
    requires Count(events, DateOf, d) > 0
    ensures DayEntry(events, d).ports == DayPorts(Select(events, DateOf, d))
    ensures |DayEntry(events, d).ports| >= 1
  {
    var dg := Select(events, DateOf, d);
    assert dg[0] in dg;
    DayPortsCoverage(dg, dg[0].port);
  }

  // ---- the attackers of one port on one day ----

  lemma DayPortEntryAttackers(dg: seq<Event>, p: nat)
    requires Count(dg, PortOf, p) > 0
    ensures DayPortEntry(dg, p).attackers == Top(DayAttackers(Select(dg, PortOf, p)), TopDayAttackers)
  {
  }

  /**
   * `a` lists busiest attackers of the rows `pg`: each with its own number of
   * rows, most rows first and equal counts by ascending address; `ip`, if it
   * has rows, is listed, or else `n` attackers are, none with fewer rows.
   */
  ghost predicate DayBusiestListed(pg: seq<Event>, a: seq<DayAttacker>, n: nat, ip: string) {
    && (forall i :: 0 <= i < |a| ==> a[i].total == Count(pg, IpOf, a[i].ip) > 0)
    && (forall i, j :: 0 <= i < j < |a| ==> a[i].total > a[j].total || (a[i].total == a[j].total && StrLt(a[i].ip, a[j].ip)))
    && (Count(pg, IpOf, ip) > 0 ==>
          (exists i :: 0 <= i < |a| && a[i].ip == ip) ||
          (|a| == n && forall i :: 0 <= i < |a| ==> Count(pg, IpOf, ip) <= a[i].total))
  }

  /**
   * A port's attackers on a day are the busiest addresses on it that day:
   * each listed one with its own number of events, most events first and
   * equal counts by ascending address. An address that attacked the port
   * that day is listed, or else the list is full and every listed address
   * has at least as many events.
   */
  lemma DayPortAttackers(dg: seq<Event>, p: nat, ip: string)
    requires Count(dg, PortOf, p) > 0
    ensures DayBusiestListed(Select(dg, PortOf, p), DayPortEntry(dg, p).attackers, TopDayAttackers, ip)
  {
    DayPortEntryAttackers(dg, p);
    TopDayAttackersListed(Select(dg, PortOf, p), TopDayAttackers, ip);
  }

  /** The kept attackers: busiest first, equal counts by ascending address. */
  lemma TopDayAttackersOrder(pg: seq<Event>, n: nat)
    ensures forall i, j :: 0 <= i < j < |Top(DayAttackers(pg), n)| ==>
      var a := Top(DayAttackers(pg), n);
      a[i].total > a[j].total || (a[i].total == a[j].total && StrLt(a[i].ip, a[j].ip))
  {
    var a := Top(DayAttackers(pg), n);
    StrLtTotal();
    DayAttackersKeys(pg);
    forall i, j | 0 <= i < j < |a|
      ensures a[i].total > a[j].total || (a[i].total == a[j].total && StrLt(a[i].ip, a[j].ip))
    {
    }
  }

  /** Each kept attacker attacked, with its own count, and none is kept twice. */
  lemma TopDayAttackersCounts(pg: seq<Event>, n: nat)
    ensures forall i :: 0 <= i < |Top(DayAttackers(pg), n)| ==>
      Top(DayAttackers(pg), n)[i].total == Count(pg, IpOf, Top(DayAttackers(pg), n)[i].ip) > 0
    ensures forall i, j :: 0 <= i < j < |Top(DayAttackers(pg), n)| ==>
      Top(DayAttackers(pg), n)[i].ip != Top(DayAttackers(pg), n)[j].ip
  {
    var a, ks := Top(DayAttackers(pg), n), AttackerRanking(pg);
    StrLtTotal();
    DayAttackersKeys(pg);
    assert Distinct(ks);
    forall i | 0 <= i < |a|
      ensures a[i].total == Count(pg, IpOf, a[i].ip) > 0
    {
      assert a[i].ip == ks[i] && ks[i] in ks;
    }
    forall i, j | 0 <= i < j < |a|
      ensures a[i].ip != a[j].ip
    {
      assert a[i].ip == ks[i] && a[j].ip == ks[j];
    }
  }

  /** An address that attacked but was not kept has no more events than any kept one. */
  lemma TopDayAttackersBusiest(pg: seq<Event>, n: nat, ip: string)
    requires Count(pg, IpOf, ip) > 0
    requires forall i :: 0 <= i < |Top(DayAttackers(pg), n)| ==> Top(DayAttackers(pg), n)[i].ip != ip
    ensures forall i :: 0 <= i < |Top(DayAttackers(pg), n)| ==> Count(pg, IpOf, ip) <= Top(DayAttackers(pg), n)[i].total
  {
    var a, ks := Top(DayAttackers(pg), n), AttackerRanking(pg);
    var top := Top(ks, n);
    DayAttackersKeys(pg);
    assert |a| == |top|;
    assert ip !in top by {
      forall j | 0 <= j < |top|
        ensures top[j] != ip
      {
        assert a[j].ip == top[j];
      }
    }
    StrLtTotal();
    TopRanked(pg, IpOf, StrLt, n, ip);
    forall j | 0 <= j < |a|
      ensures Count(pg, IpOf, ip) <= a[j].total
    {
      assert a[j].total == Count(pg, IpOf, top[j]);
    }
  }

  /** An attacker of the rows `pg` is kept, or else `n` attackers are kept, none with fewer events. */
  lemma TopDayAttackersComplete(pg: seq<Event>, n: nat, ip: string)
    ensures var a := Top(DayAttackers(pg), n);
      Count(pg, IpOf, ip) > 0 ==>
        (exists i :: 0 <= i < |a| && a[i].ip == ip) ||
        (|a| == n && forall i :: 0 <= i < |a| ==> Count(pg, IpOf, ip) <= a[i].total)
  {
    var a := Top(DayAttackers(pg), n);
    if Count(pg, IpOf, ip) > 0 {
      if |a| < n {
        DayAttackersKeys(pg);
        StrLtTotal();
        var k :| 0 <= k < |AttackerRanking(pg)| && AttackerRanking(pg)[k] == ip;
        assert a[k].ip == ip;
      } else if forall i :: 0 <= i < |a| ==> a[i].ip != ip {
        TopDayAttackersBusiest(pg, n, ip);
      }
    }
  }

  /** The first `n` attackers of the rows `pg` are its busiest. */
  lemma TopDayAttackersListed(pg: seq<Event>, n: nat, ip: string)
    ensures DayBusiestListed(pg, Top(DayAttackers(pg), n), n, ip)
  {
    TopDayAttackersCounts(pg, n);
    TopDayAttackersOrder(pg, n);
    TopDayAttackersComplete(pg, n, ip);
  }

  /** An attacker's buckets count its rows by the quarter of their hour. */
  lemma DayAttackerQuarters(pg: seq<Event>, ip: string)
    requires Count(pg, IpOf, ip) > 0
    ensures var g, q := Select(pg, IpOf, ip), DayAttackerEntry(pg, ip).distribution;
      q.night == Count(g, HourQuarter, 0) && q.morning == Count(g, HourQuarter, 1) &&
      q.afternoon == Count(g, HourQuarter, 2) && q.evening == Count(g, HourQuarter, 3)
  {
    DistributionCounts(Select(pg, IpOf, ip));
  }
}
