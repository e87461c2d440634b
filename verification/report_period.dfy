/**
 * `generate_summary_by_week` and `generate_summary_by_month`: one entry per
 * calendar period with its number of events and the tallies of attack
 * patterns and destination ports, latest period first. Both reports share
 * one shape and differ only in the period an event falls into, so they are
 * one definition over the period key.
 */
module ReportByPeriod {
  import opened Ordering
  import opened Tally
  import opened Calendar
  import opened Events

  datatype PeriodSummary<K> = PeriodSummary(period: K, total: nat, attacks: seq<Bin<string>>, ports: seq<Bin<nat>>)

  /** The entry of period `k`: its events and their `value_counts()` by pattern and by port. */
  function PeriodEntry<K(==)>(events: seq<Event>, key: Event -> K, k: K): (r: PeriodSummary<K>)
    requires Count(events, key, k) > 0
    ensures r.period == k && r.total == Count(events, key, k)
    ensures BinTotal(r.attacks) == r.total && BinTotal(r.ports) == r.total
    ensures forall i :: 0 <= i < |r.attacks| ==>
      r.attacks[i].count == Count(Select(events, key, k), PatternOf, r.attacks[i].key)
    ensures forall i :: 0 <= i < |r.ports| ==>
      r.ports[i].count == Count(Select(events, key, k), PortOf, r.ports[i].key)
  {
    var g := Select(events, key, k);
    StrLtTotal();
    NatLtTotal();
    PeriodSummary(k, |g|, Breakdown(g, PatternOf, StrLt), Breakdown(g, PortOf, NatLt))
  }

  /** The report over the periods `key` assigns, listed from the latest to the earliest. */
  function ByPeriod<K(==,!new)>(events: seq<Event>, key: Event -> K, lt: (K, K) -> bool): (r: seq<PeriodSummary<K>>)
    requires StrictTotal(lt)
    ensures |events| == 0 <==> |r| == 0
  {
    var ks := KeysDescending(events, key, lt);
    assert |events| > 0 ==> key(events[0]) in ks by {
      if |events| > 0 {
        CountPositive(events, key, key(events[0]));
      }
    }
    seq(|ks|, i requires 0 <= i < |ks| => PeriodEntry(events, key, ks[i]))
  }

  lemma ByPeriodKeys<K(!new)>(events: seq<Event>, key: Event -> K, lt: (K, K) -> bool)
    requires StrictTotal(lt)
    ensures |ByPeriod(events, key, lt)| == |KeysDescending(events, key, lt)|
    ensures forall i :: 0 <= i < |ByPeriod(events, key, lt)| ==>
      ByPeriod(events, key, lt)[i] == PeriodEntry(events, key, KeysDescending(events, key, lt)[i])
  {
  }

  /** Latest period first, so no period is listed twice. */
  lemma ByPeriodOrder<K(!new)>(events: seq<Event>, key: Event -> K, lt: (K, K) -> bool)
    requires StrictTotal(lt)
    ensures forall i, j :: 0 <= i < j < |ByPeriod(events, key, lt)| ==>
      lt(ByPeriod(events, key, lt)[j].period, ByPeriod(events, key, lt)[i].period)
  {
    ByPeriodKeys(events, key, lt);
  }

  /** A period has an entry exactly when some event falls into it. */
  lemma ByPeriodCoverage<K(!new)>(events: seq<Event>, key: Event -> K, lt: (K, K) -> bool, k: K)
    requires StrictTotal(lt)
    ensures (exists i :: 0 <= i < |ByPeriod(events, key, lt)| && ByPeriod(events, key, lt)[i].period == k)
      <==> exists e :: e in events && key(e) == k
  {
    var r, ks := ByPeriod(events, key, lt), KeysDescending(events, key, lt);
    assert k in ks <==> exists e :: e in events && key(e) == k by {
      CountPositive(events, key, k);
    }
    assert (exists i :: 0 <= i < |r| && r[i].period == k) <==> k in ks by {
      ByPeriodKeys(events, key, lt);
      if k in ks {
        var i :| 0 <= i < |ks| && ks[i] == k;
        assert r[i].period == k;
      }
    }
  }

  function PeriodTotal<K>(r: PeriodSummary<K>): nat { r.total }

  /** Every event falls into exactly one period: the totals add up to the number of events. */
  lemma ByPeriodTotal<K(!new)>(events: seq<Event>, key: Event -> K, lt: (K, K) -> bool)
    requires StrictTotal(lt)
    ensures SumNat(Totals(ByPeriod(events, key, lt), PeriodTotal)) == |events|
  {
    var r, ks := ByPeriod(events, key, lt), KeysDescending(events, key, lt);
    ByPeriodKeys(events, key, lt);
    GroupTotals(ks, events, key, Totals(r, PeriodTotal));
  }

  // ---- the weekly report ----

  /**
   * The weekly report. Which week an event falls into is pandas' calendar
   * arithmetic (`to_period('W')`, weeks ending on Sunday); it is the
   * parameter `weekStart`, which gives the first day of the event's week.
   */
  function ByWeek(events: seq<Event>, weekStart: Event -> Date): (r: seq<PeriodSummary<Date>>)
    ensures |events| == 0 <==> |r| == 0
    ensures forall i, j :: 0 <= i < j < |r| ==> DateLt(r[j].period, r[i].period)
  {
    DateLtTotal();
    ByPeriodOrder(events, weekStart, DateLt);
    ByPeriod(events, weekStart, DateLt)
  }

  /** The last day of the week starting on `start`, six days later. */
  function WeekEnd(start: Date): (r: Date)
    ensures OnCalendar(start) ==> OnCalendar(r) && DayNumber(r) == DayNumber(start) + 6
  {
    AddDays(start, 6)
  }

  /** The `"<start> to <end>"` label of the week starting on `start`. */
  function WeekLabel(start: Date): string {
    DateText(start) + " to " + DateText(WeekEnd(start))
  }

  /**
   * For distinct printable week starts the label order is the order of the
   * starts: the week end never decides between two labels.
   */
  lemma WeekLabelOrder(a: Date, b: Date)
    requires Printable(a) && Printable(b) && a != b
    ensures StrLt(WeekLabel(a), WeekLabel(b)) <==> DateLt(a, b)
  {
    var ea, eb := WeekEnd(a), WeekEnd(b);
    assert WeekLabel(a) == DateText(a) + (" to " + DateText(ea));
    assert WeekLabel(b) == DateText(b) + (" to " + DateText(eb));
    StrLtAppend(DateText(a), " to " + DateText(ea), DateText(b), " to " + DateText(eb));
    DateTextOrder(a, b);
  }

  /**
   * The weekly entries are sorted by their label: for printable week starts
   * the labels come out strictly descending as text too.
   */
  lemma ByWeekLabels(events: seq<Event>, weekStart: Event -> Date)
    requires forall e :: e in events ==> Printable(weekStart(e))
    ensures forall i, j :: 0 <= i < j < |ByWeek(events, weekStart)| ==>
      StrLt(WeekLabel(ByWeek(events, weekStart)[j].period), WeekLabel(ByWeek(events, weekStart)[i].period))
  {
    var r := ByWeek(events, weekStart);
    DateLtTotal();
    forall i | 0 <= i < |r|
      ensures Printable(r[i].period)
    {
      ByPeriodCoverage(events, weekStart, DateLt, r[i].period);
    }
    forall i, j | 0 <= i < j < |r|
      ensures StrLt(WeekLabel(r[j].period), WeekLabel(r[i].period))
    {
      WeekLabelOrder(r[j].period, r[i].period);
    }
  }

  // ---- the monthly report ----

  /** The monthly report: the period of an event is its `YYYY-MM` month. */
  function ByMonth(events: seq<Event>): (r: seq<PeriodSummary<Month>>)
    ensures |events| == 0 <==> |r| == 0
    ensures forall i, j :: 0 <= i < j < |r| ==> MonthLt(r[j].period, r[i].period)
  {
    MonthLtTotal();
    ByPeriodOrder(events, MonthKey, MonthLt);
    ByPeriod(events, MonthKey, MonthLt)
  }

  /**
   * The monthly entries are sorted by their `YYYY-MM` label: for events with
   * valid timestamps the labels come out strictly descending as text too.
   */
  lemma ByMonthLabels(events: seq<Event>)
    requires forall e :: e in events ==> ValidStamp(e.stamp)
    ensures forall i, j :: 0 <= i < j < |ByMonth(events)| ==>
      StrLt(MonthText(ByMonth(events)[j].period), MonthText(ByMonth(events)[i].period))
  {
    var r := ByMonth(events);
    MonthLtTotal();
    forall i | 0 <= i < |r|
      ensures r[i].period.year < 10000 && r[i].period.month < 100
    {
      ByPeriodCoverage(events, MonthKey, MonthLt, r[i].period);
    }
    forall i, j | 0 <= i < j < |r|
      ensures StrLt(MonthText(r[j].period), MonthText(r[i].period))
    {
      MonthTextOrder(r[j].period, r[i].period);
    }
  }
}
