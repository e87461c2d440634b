/**
 * `generate_summary_by_attack_type`: one entry per attack pattern, with its
 * number of events, how those events split over port roles and on how many
 * different days they happened, most frequent pattern first.
 */
module ReportByAttackType {
  import opened Ordering
  import opened Tally
  import opened Calendar
  import opened Config
  import opened Events

  datatype TypeSummary = TypeSummary(pattern: string, total: nat, roles: seq<Bin<PortRole>>, days: nat)

  /**
   * The entry of pattern `p`, built from the pattern's group. The port roles
   * are listed in the order `unique()` gives: the order in which they first
   * show up among the pattern's events.
   */
  function TypeEntry(events: seq<Event>, p: string): (r: TypeSummary)
    requires Count(events, PatternOf, p) > 0
    ensures r.pattern == p && r.total == Count(events, PatternOf, p)
    ensures BinTotal(r.roles) == r.total
    ensures forall i :: 0 <= i < |r.roles| ==>
      r.roles[i].count == Count(Select(events, PatternOf, p), RoleOf, r.roles[i].key) > 0
    ensures forall i, j :: 0 <= i < j < |r.roles| ==>
      r.roles[i].key != r.roles[j].key && ShowsFirst(Select(events, PatternOf, p), RoleOf, r.roles[i].key, r.roles[j].key)
    ensures forall e :: e in events && e.pattern == p ==> HasBin(r.roles, e.role)
    ensures 1 <= r.days <= r.total
  {
    var g := Select(events, PatternOf, p);
    DateLtTotal();
    RolesCover(events, p);
    TypeSummary(p, |g|, FirstSeenBins(g, RoleOf), DistinctCount(g, DateOf, DateLt))
  }

  /** Every role among the pattern's events has its bin. */
  lemma RolesCover(events: seq<Event>, p: string)
    ensures forall e :: e in events && e.pattern == p ==> HasBin(FirstSeenBins(Select(events, PatternOf, p), RoleOf), e.role)
  {
    var g := Select(events, PatternOf, p);
    forall e | e in events && e.pattern == p
      ensures HasBin(FirstSeenBins(g, RoleOf), e.role)
    {
      CountPositive(g, RoleOf, e.role);
    }
  }

  /** The patterns in report order: by count, largest first, equal counts in ascending order. */
  function PatternRanking(events: seq<Event>): seq<string> {
    StrLtTotal();
    RankByCount(events, PatternOf, StrLt)
  }

  /** The report: the entry of each pattern, in ranking order; empty exactly when there are no events. */
  function ByAttackType(events: seq<Event>): (r: seq<TypeSummary>)
    ensures |events| == 0 <==> |r| == 0
  {
    var ks := PatternRanking(events);
    assert |events| > 0 ==> PatternOf(events[0]) in ks;
    seq(|ks|, i requires 0 <= i < |ks| => TypeEntry(events, ks[i]))
  }

  lemma ByAttackTypeKeys(events: seq<Event>)
    ensures |ByAttackType(events)| == |PatternRanking(events)|
    ensures forall i :: 0 <= i < |ByAttackType(events)| ==> ByAttackType(events)[i].pattern == PatternRanking(events)[i]
  {
  }

  /** One entry for each pattern that occurs, and no pattern twice. */
  lemma ByAttackTypeCoverage(events: seq<Event>, p: string)
    ensures (exists i :: 0 <= i < |ByAttackType(events)| && ByAttackType(events)[i].pattern == p) <==> Count(events, PatternOf, p) > 0
  {
    var r, ks := ByAttackType(events), PatternRanking(events);
    assert p in ks <==> Count(events, PatternOf, p) > 0 by {
      StrLtTotal();
    }
    assert (exists i :: 0 <= i < |r| && r[i].pattern == p) <==> p in ks by {
      ByAttackTypeKeys(events);
      if p in ks {
        var i :| 0 <= i < |ks| && ks[i] == p;
        assert r[i].pattern == p;
      }
    }
  }

  /** No pattern has two entries. */
  lemma ByAttackTypeDistinct(events: seq<Event>)
    ensures forall i, j :: 0 <= i < j < |ByAttackType(events)| ==> ByAttackType(events)[i].pattern != ByAttackType(events)[j].pattern
  {
    StrLtTotal();
    ByAttackTypeKeys(events);
    assert Distinct(PatternRanking(events));
  }

  /**
   * Largest count first; the stable sort keeps `groupby`'s ascending
   * pattern order among patterns of equal count.
   */
  lemma ByAttackTypeOrder(events: seq<Event>)
    ensures forall i, j :: 0 <= i < j < |ByAttackType(events)| ==>
      var r := ByAttackType(events);
      r[i].total > r[j].total || (r[i].total == r[j].total && StrLt(r[i].pattern, r[j].pattern))
  {
    var r, ks := ByAttackType(events), PatternRanking(events);
    StrLtTotal();
    ByAttackTypeKeys(events);
    forall i, j | 0 <= i < j < |r|
      ensures r[i].total > r[j].total || (r[i].total == r[j].total && StrLt(r[i].pattern, r[j].pattern))
    {
      assert r[i] == TypeEntry(events, ks[i]) && r[j] == TypeEntry(events, ks[j]);
    }
  }

  function TypeTotal(r: TypeSummary): nat { r.total }

  /** Every event is counted under exactly one pattern: the totals add up to the number of events. */
  lemma ByAttackTypeTotal(events: seq<Event>)
    ensures SumNat(Totals(ByAttackType(events), TypeTotal)) == |events|
  {
    var r, ks := ByAttackType(events), PatternRanking(events);
    StrLtTotal();
    ByAttackTypeKeys(events);
    var t := Totals(r, TypeTotal);
    forall i | 0 <= i < |ks|
      ensures t[i] == Count(events, PatternOf, ks[i])
    {
      assert r[i] == TypeEntry(events, ks[i]);
    }
    GroupTotals(ks, events, PatternOf, t);
  }

  /** `days_with_events` is the number of different dates among the pattern's events. */
  lemma TypeEntryDays(events: seq<Event>, p: string, dates: seq<Date>)
    requires Count(events, PatternOf, p) > 0
    requires Distinct(dates)
    requires forall d :: d in dates <==> exists e :: e in events && e.pattern == p && e.stamp.date == d
    ensures TypeEntry(events, p).days == |dates|
  {
    var g := Select(events, PatternOf, p);
    DateLtTotal();
    forall d
      ensures d in dates <==> Count(g, DateOf, d) > 0
    {
      CountPositive(g, DateOf, d);
    }
    DistinctCountOf(g, DateOf, DateLt, dates);
  }
}
