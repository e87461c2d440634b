/**
 * `generate_summary_by_port`: one entry per destination port with its role,
 * number of events, pattern tally, time span and its ten most active
 * attackers, busiest port first.
 */
module ReportByPort {
  import opened Wrappers
  import opened Ordering
  import opened Tally
  import opened Calendar
  import opened Config
  import opened Events
  import opened Durations

  /** One attacker of a port: its events there, their pattern tally, time span and count per date. */
  datatype Attacker = Attacker(
    ip: string,
    total: nat,
    breakdown: seq<Bin<string>>,
    first: Stamp,
    last: Stamp,
    perDay: seq<Bin<Date>>)

  datatype PortSummary = PortSummary(
    port: nat,
    role: PortRole,
    total: nat,
    breakdown: seq<Bin<string>>,
    first: Stamp,
    last: Stamp,
    elapsed: nat,
    attackers: seq<Attacker>)

  /** The `duration` text of a port's time span. */
  function SpanText(r: PortSummary): string {
    PortDuration(r.elapsed)
  }

  /** How many attackers a port entry lists. */
  const TopAttackers: nat := 10

  /** The entry of attacker `ip` among the rows `pg` of one port. */
  function AttackerEntry(pg: seq<Event>, ip: string): (a: Attacker)
    requires Count(pg, IpOf, ip) > 0
    ensures a.ip == ip && a.total == Count(pg, IpOf, ip)
    ensures BinTotal(a.breakdown) == a.total && BinTotal(a.perDay) == a.total
    ensures forall i, j :: 0 <= i < j < |a.perDay| ==> DateLt(a.perDay[i].key, a.perDay[j].key)
    ensures forall i :: 0 <= i < |a.perDay| ==>
      a.perDay[i].count == Count(Select(pg, IpOf, ip), DateOf, a.perDay[i].key) >= 1
  {
    var g := Select(pg, IpOf, ip);
    var b := Bounds(g);
    StrLtTotal();
    DateLtTotal();
    Attacker(ip, |g|, Breakdown(g, PatternOf, StrLt), b.0, b.1, Breakdown(g, DateOf, DateLt))
  }

  /** The addresses attacking through the rows `pg`, most events first, equal counts by ascending address. */
  function AttackerRanking(pg: seq<Event>): seq<string> {
    StrLtTotal();
    RankByCount(pg, IpOf, StrLt)
  }

  /** The entries of the attackers `ks` of the rows `pg`, in the order of `ks`. */
  function AttackerList(pg: seq<Event>, ks: seq<string>): (r: seq<Attacker>)
    requires forall k :: k in ks ==> Count(pg, IpOf, k) > 0
    ensures |r| == |ks|
    ensures forall i :: 0 <= i < |r| ==> r[i].ip == ks[i] && r[i].total == Count(pg, IpOf, ks[i])
  {
    var r := seq(|ks|, i requires 0 <= i < |ks| => AttackerEntry(pg, ks[i]));
    assert forall i :: 0 <= i < |r| ==> r[i].ip == ks[i] && r[i].total == Count(pg, IpOf, ks[i]) by {
      forall i | 0 <= i < |r|
        ensures r[i].ip == ks[i] && r[i].total == Count(pg, IpOf, ks[i])
      {
        var e := AttackerEntry(pg, ks[i]);
        assert r[i] == e;
      }
    }
    r
  }

  /** All attackers of the rows `pg`, in ranking order. */
  function Attackers(pg: seq<Event>): seq<Attacker> {
    StrLtTotal();
    AttackerList(pg, AttackerRanking(pg))
  }

  /** An attacker's first and last timestamps bound all of its events on the port. */
  lemma AttackerTimeSpan(pg: seq<Event>, ip: string)
    requires Count(pg, IpOf, ip) > 0
    ensures forall e :: e in pg && e.ip == ip ==>
      Instant(AttackerEntry(pg, ip).first) <= Instant(e.stamp) <= Instant(AttackerEntry(pg, ip).last)
  {
    var g := Select(pg, IpOf, ip);
    assert forall e :: e in pg && e.ip == ip ==> e in g;
  }

  lemma AttackersKeys(pg: seq<Event>)
    ensures |Attackers(pg)| == |AttackerRanking(pg)|
    ensures forall i :: 0 <= i < |Attackers(pg)| ==>
      Attackers(pg)[i].ip == AttackerRanking(pg)[i] && Attackers(pg)[i].total == Count(pg, IpOf, AttackerRanking(pg)[i])
  {
    StrLtTotal();
  }

  /**
   * The entry of port `p`: the role on its first row, its event count,
   * pattern tally, earliest and latest timestamps, the seconds between them
   * and the first ten attackers.
   */
  function PortEntry(events: seq<Event>, p: nat): (r: PortSummary)
    requires Count(events, PortOf, p) > 0
    ensures r.port == p && r.total == Count(events, PortOf, p)
    ensures BinTotal(r.breakdown) == r.total
    ensures |r.attackers| <= TopAttackers
  {
    var pg := Select(events, PortOf, p);
    var b := Bounds(pg);
    StrLtTotal();
    var secs := Elapsed(pg);
    PortSummary(p, pg[0].role, |pg|, Breakdown(pg, PatternOf, StrLt), b.0, b.1,
      secs, Top(Attackers(pg), TopAttackers))
  }

  lemma PortEntryAttackers(events: seq<Event>, p: nat)
    requires Count(events, PortOf, p) > 0
    ensures PortEntry(events, p).attackers == Top(Attackers(Select(events, PortOf, p)), TopAttackers)
  {
  }

  /**
   * `a` lists busiest attackers of the rows `pg`: each with its own number of
   * rows, most rows first and equal counts by ascending address; `ip`, if it
   * has rows, is listed, or else `n` attackers are, none with fewer rows.
   */
  ghost predicate BusiestListed(pg: seq<Event>, a: seq<Attacker>, n: nat, ip: string) {
    && (forall i :: 0 <= i < |a| ==> a[i].total == Count(pg, IpOf, a[i].ip) > 0)
    && (forall i, j :: 0 <= i < j < |a| ==> a[i].total > a[j].total || (a[i].total == a[j].total && StrLt(a[i].ip, a[j].ip)))
    && (Count(pg, IpOf, ip) > 0 ==>
          (exists i :: 0 <= i < |a| && a[i].ip == ip) ||
          (|a| == n && forall i :: 0 <= i < |a| ==> Count(pg, IpOf, ip) <= a[i].total))
  }

  /**
   * A port's attackers are the busiest addresses on it: each listed one with
   * its own number of events on the port, most events first and equal counts
   * by ascending address. An address that attacked the port is listed, or
   * else the list is full and every listed address has at least as many
   * events on the port.
   */
  lemma PortAttackers(events: seq<Event>, p: nat, ip: string)
    requires Count(events, PortOf, p) > 0
    ensures BusiestListed(Select(events, PortOf, p), PortEntry(events, p).attackers, TopAttackers, ip)
  {
    PortEntryAttackers(events, p);
    TopAttackersListed(Select(events, PortOf, p), TopAttackers, ip);
  }

  /** A port's first and last timestamps bound all of its events. */
  lemma PortTimeSpan(events: seq<Event>, p: nat)
    requires Count(events, PortOf, p) > 0
    ensures forall e :: e in events && e.port == p ==>
      Instant(PortEntry(events, p).first) <= Instant(e.stamp) <= Instant(PortEntry(events, p).last)
  {
    var pg := Select(events, PortOf, p);
    assert forall e :: e in events && e.port == p ==> e in pg;
  }

  /**
   * A port's elapsed time is the number of seconds from its first to its
   * last event: no two of its events are further apart, and two of them are
   * exactly that far apart.
   */
  lemma PortElapsed(events: seq<Event>, p: nat)
    requires Count(events, PortOf, p) > 0
    ensures PortEntry(events, p).elapsed == Instant(PortEntry(events, p).last) - Instant(PortEntry(events, p).first)
    ensures forall a, b :: a in events && a.port == p && b in events && b.port == p ==>
      Instant(a.stamp) - Instant(b.stamp) <= PortEntry(events, p).elapsed
    ensures exists a, b ::
      a in events && a.port == p && b in events && b.port == p && Instant(a.stamp) - Instant(b.stamp) == PortEntry(events, p).elapsed
  {
    var pg := Select(events, PortOf, p);
    PortTimeSpan(events, p);
    BoundsAttained(pg);
    var i :| 0 <= i < |pg| && pg[i].stamp == Bounds(pg).1;
    var j :| 0 <= j < |pg| && pg[j].stamp == Bounds(pg).0;
    assert pg[i] in pg && pg[j] in pg;
  }

  /**
   * A port's `duration` text stands for its elapsed seconds (the span
   * `PortElapsed` states) truncated to whole minutes below one day and to
   * whole hours from one day on.
   */
  lemma SpanTextValue(r: PortSummary)
    ensures ReadDuration(SpanText(r)) == Some(if r.elapsed < 86400 then r.elapsed - r.elapsed % 60 else r.elapsed - r.elapsed % 3600)
  {
    PortDurationValue(r.elapsed);
  }

  /** The ports, busiest first; the stable sort keeps ascending port order among equal counts. */
  function PortRanking(events: seq<Event>): seq<nat> {
    NatLtTotal();
    RankByCount(events, PortOf, NatLt)
  }

  /** The entries of the ports `ks`, in the order of `ks`. */
  function PortList(events: seq<Event>, ks: seq<nat>): (r: seq<PortSummary>)
    requires forall k :: k in ks ==> Count(events, PortOf, k) > 0
    ensures |r| == |ks|
    ensures forall i :: 0 <= i < |r| ==> r[i].port == ks[i] && r[i].total == Count(events, PortOf, ks[i])
  {
    var r := seq(|ks|, i requires 0 <= i < |ks| => PortEntry(events, ks[i]));
    assert forall i :: 0 <= i < |r| ==> r[i].port == ks[i] && r[i].total == Count(events, PortOf, ks[i]) by {
      forall i | 0 <= i < |r|
        ensures r[i].port == ks[i] && r[i].total == Count(events, PortOf, ks[i])
      {
        var e := PortEntry(events, ks[i]);
        assert r[i] == e;
      }
    }
    r
  }

  /** The report: the entry of each port in ranking order; empty exactly when there are no events. */
  function ByPort(events: seq<Event>): (r: seq<PortSummary>)
    ensures |events| == 0 <==> |r| == 0
  {
    var ks := PortRanking(events);
    assert |events| > 0 ==> PortOf(events[0]) in ks;
    PortList(events, ks)
  }

  lemma ByPortKeys(events: seq<Event>)
    ensures |ByPort(events)| == |PortRanking(events)|
    ensures forall i :: 0 <= i < |ByPort(events)| ==>
      ByPort(events)[i].port == PortRanking(events)[i] && ByPort(events)[i].total == Count(events, PortOf, PortRanking(events)[i])
  {
  }

  lemma PortRankingCovers(events: seq<Event>, p: nat)
    ensures p in PortRanking(events) <==> exists e :: e in events && e.port == p
  {
    NatLtTotal();
    CountPositive(events, PortOf, p);
  }

  lemma ByPortListsRanking(events: seq<Event>, p: nat)
    ensures (exists i :: 0 <= i < |ByPort(events)| && ByPort(events)[i].port == p) <==> p in PortRanking(events)
  {
    var r, ks := ByPort(events), PortRanking(events);
    ByPortKeys(events);
    if p in ks {
      var i :| 0 <= i < |ks| && ks[i] == p;
      assert r[i].port == p;
    }
  }

  /** A port has an entry exactly when some event hit it. */
  lemma ByPortCoverage(events: seq<Event>, p: nat)
    ensures (exists i :: 0 <= i < |ByPort(events)| && ByPort(events)[i].port == p) <==> exists e :: e in events && e.port == p
  {
    PortRankingCovers(events, p);
    ByPortListsRanking(events, p);
  }

  /** Busiest port first, equal counts by ascending port, so no port twice. */
  lemma ByPortOrder(events: seq<Event>)
    ensures forall i, j :: 0 <= i < j < |ByPort(events)| ==>
      var r := ByPort(events);
      r[i].total > r[j].total || (r[i].total == r[j].total && r[i].port < r[j].port)
  {
    var r, ks := ByPort(events), PortRanking(events);
    NatLtTotal();
    ByPortKeys(events);
    forall i, j | 0 <= i < j < |r|
      ensures r[i].total > r[j].total || (r[i].total == r[j].total && r[i].port < r[j].port)
    {
    }
  }

  function PortTotal(r: PortSummary): nat { r.total }

  /** Any listing of the ports, each once, accounts for every event. */
  lemma PortListTotal(events: seq<Event>, ks: seq<nat>)
    requires Distinct(ks) && forall k :: k in ks <==> Count(events, PortOf, k) > 0
    ensures SumNat(Totals(PortList(events, ks), PortTotal)) == |events|
  {
    var t := Totals(PortList(events, ks), PortTotal);
    assert forall i :: 0 <= i < |ks| ==> t[i] == Count(events, PortOf, ks[i]);
    GroupTotals(ks, events, PortOf, t);
  }

  /** Every event hit exactly one port: the port totals add up to the number of events. */
  lemma ByPortTotal(events: seq<Event>)
    ensures SumNat(Totals(ByPort(events), PortTotal)) == |events|
  {
    NatLtTotal();
    PortListTotal(events, PortRanking(events));
  }

  /**
   * For events whose role is the classification of their port, the role of
   * a port's entry is that classification.
   */
  lemma PortEntryRole(events: seq<Event>, p: nat, game: seq<int>, tv: seq<int>)
    requires Count(events, PortOf, p) > 0
    requires forall e :: e in events ==> e.role == ClassifyPort(e.port, game, tv)
    ensures PortEntry(events, p).role == ClassifyPort(p, game, tv)
  {
    var pg := Select(events, PortOf, p);
    assert pg[0] in pg;
  }

  /** The attackers kept from the rows `pg`: busiest first, equal counts by ascending address. */
  lemma TopAttackersOrder(pg: seq<Event>, n: nat)
    ensures forall i, j :: 0 <= i < j < |Top(Attackers(pg), n)| ==>
      var a := Top(Attackers(pg), n);
      a[i].total > a[j].total || (a[i].total == a[j].total && StrLt(a[i].ip, a[j].ip))
  {
    var a, ks := Top(Attackers(pg), n), AttackerRanking(pg);
    StrLtTotal();
    AttackersKeys(pg);
    forall i, j | 0 <= i < j < |a|
      ensures a[i].total > a[j].total || (a[i].total == a[j].total && StrLt(a[i].ip, a[j].ip))
    {
    }
  }

  /** Each kept attacker attacked, and its total is its own number of rows. */
  lemma TopAttackersCounts(pg: seq<Event>, n: nat)
    ensures forall i :: 0 <= i < |Top(Attackers(pg), n)| ==>
      Top(Attackers(pg), n)[i].total == Count(pg, IpOf, Top(Attackers(pg), n)[i].ip) > 0
  {
    var a, ks := Top(Attackers(pg), n), AttackerRanking(pg);
    StrLtTotal();
    AttackersKeys(pg);
    forall i | 0 <= i < |a|
      ensures a[i].total == Count(pg, IpOf, a[i].ip) > 0
    {
      assert a[i].ip == ks[i] && ks[i] in ks;
    }
  }

  /** No address is kept twice. */
  lemma TopAttackersDistinct(pg: seq<Event>, n: nat)
    ensures forall i, j :: 0 <= i < j < |Top(Attackers(pg), n)| ==> Top(Attackers(pg), n)[i].ip != Top(Attackers(pg), n)[j].ip
  {
    var a, ks := Top(Attackers(pg), n), AttackerRanking(pg);
    StrLtTotal();
    AttackersKeys(pg);
    assert Distinct(ks);
    forall i, j | 0 <= i < j < |a|
      ensures a[i].ip != a[j].ip
    {
      assert a[i].ip == ks[i] && a[j].ip == ks[j];
    }
  }

  /**
   * The kept attackers are the busiest: an address that attacked but was not
   * kept has no more events than any kept one.
   */
  lemma TopAttackersBusiest(pg: seq<Event>, n: nat, ip: string)
    requires Count(pg, IpOf, ip) > 0
    requires forall i :: 0 <= i < |Top(Attackers(pg), n)| ==> Top(Attackers(pg), n)[i].ip != ip
    ensures forall i :: 0 <= i < |Top(Attackers(pg), n)| ==> Count(pg, IpOf, ip) <= Top(Attackers(pg), n)[i].total
  {
    var a, ks := Top(Attackers(pg), n), AttackerRanking(pg);
    var top := Top(ks, n);
    AttackersKeys(pg);
    assert |a| == |top|;
    assert ip !in top by {
      forall j | 0 <= j < |top|
        ensures top[j] != ip
      {
        assert a[j].ip == top[j];
      }
    }
    StrLtTotal();
    TopRanked(pg, IpOf, StrLt, n, ip);
    forall j | 0 <= j < |a|
      ensures Count(pg, IpOf, ip) <= a[j].total
    {
      assert a[j].total == Count(pg, IpOf, top[j]);
    }
  }

  /** An attacker of the rows `pg` is kept, or else `n` attackers are kept, none with fewer events. */
  lemma TopAttackersComplete(pg: seq<Event>, n: nat, ip: string)
    ensures var a := Top(Attackers(pg), n);
      Count(pg, IpOf, ip) > 0 ==>
        (exists i :: 0 <= i < |a| && a[i].ip == ip) ||
        (|a| == n && forall i :: 0 <= i < |a| ==> Count(pg, IpOf, ip) <= a[i].total)
  {
    var a := Top(Attackers(pg), n);
    if Count(pg, IpOf, ip) > 0 {
      if |a| < n {
        AttackersKeys(pg);
        StrLtTotal();
        var k :| 0 <= k < |AttackerRanking(pg)| && AttackerRanking(pg)[k] == ip;
        assert a[k].ip == ip;
      } else if forall i :: 0 <= i < |a| ==> a[i].ip != ip {
        TopAttackersBusiest(pg, n, ip);
      }
    }
  }

  /** The first `n` attackers of the rows `pg` are its busiest. */
  lemma TopAttackersListed(pg: seq<Event>, n: nat, ip: string)
    ensures BusiestListed(pg, Top(Attackers(pg), n), n, ip)
  {
    TopAttackersCounts(pg, n);
    TopAttackersOrder(pg, n);
    TopAttackersComplete(pg, n, ip);
  }

}
