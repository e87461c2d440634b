/**
 * The two human-readable duration texts of the reports. The per-address
 * timeline uses seconds, minutes or hours (no day tier) and omits a zero
 * second or minute part; the per-port time span uses "H hours, M minutes"
 * below one day and "D days, H hours" from one day on. Both truncate: the
 * reader `ReadDuration` recovers how many seconds a text stands for.
 */
module Durations {
  import opened Wrappers
  import opened Text

  /** Words separated by single spaces, as the f-strings of the reports lay them out. */
  function Words(ws: seq<string>): string {
    Join(ws, ' ')
  }

  /** The `Attack_Duration` text for a span of `s` seconds between the first and the last event of a day. */
  function IpDuration(s: nat): string {
    if s < 60 then
      Words([NatStr(s), "seconds"])
    else if s < 3600 then
      var minutes, seconds := s / 60, s % 60;
      if seconds > 0 then Words([NatStr(minutes), "minutes", NatStr(seconds), "seconds"])
      else Words([NatStr(minutes), "minutes"])
    else
      var hours, minutes := s / 3600, (s % 3600) / 60;
      if minutes > 0 then Words([NatStr(hours), "hours", NatStr(minutes), "minutes"])
      else Words([NatStr(hours), "hours"])
  }

  lemma IpDurationZero()
    ensures IpDuration(0) == "0 seconds"
  {
    assert NatStr(0) == "0";
    assert [NatStr(0), "seconds"][1..] == ["seconds"];
  }

  /** The `duration` text of a port's time span of `s` seconds ("H hours, M minutes" or "D days, H hours"). */
  function PortDuration(s: nat): string {
    if s < 86400 then
      Words([NatStr(s / 3600), "hours,", NatStr((s % 3600) / 60), "minutes"])
    else
      Words([NatStr(s / 86400), "days,", NatStr((s % 86400) / 3600), "hours"])
  }

  // ---- reading a duration text back ----

  /** The seconds one unit word stands for, with or without the separating comma. */
  function UnitValue(u: string): Option<nat> {
    if u == "seconds" || u == "seconds," then Some(1)
    else if u == "minutes" || u == "minutes," then Some(60)
    else if u == "hours" || u == "hours," then Some(3600)
    else if u == "days" || u == "days," then Some(86400)
    else None
  }

  /** A list of words read as number-unit pairs, added up. */
  function ReadWords(ws: seq<string>): Option<nat>
    decreases |ws|
  {
    if |ws| == 0 then Some(0)
    else if |ws| == 1 || |ws[0]| == 0 || !AllDigits(ws[0]) || UnitValue(ws[1]).None? then None
    else
      match ReadWords(ws[2..])
      case None => None
      case Some(rest) => Some(ParseNat(ws[0]) * UnitValue(ws[1]).value + rest)
  }

  /** How many seconds a duration text stands for, if it is one. */
  function ReadDuration(t: string): Option<nat> {
    ReadWords(Split(t, ' '))
  }

  lemma NatStrNoSpace(n: nat)
    ensures ' ' !in NatStr(n)
  {
    var s := NatStr(n);
    assert forall k :: 0 <= k < |s| ==> IsDigit(s[k]);
  }

  /** Reading a number-unit pair in front of further words. */
  lemma ReadPair(a: nat, u: string, rest: seq<string>)
    requires UnitValue(u).Some?
    ensures ReadWords([NatStr(a), u] + rest)
         == (match ReadWords(rest) case None => None case Some(r) => Some(a * UnitValue(u).value + r))
  {
    ParseNatStr(a);
    assert ([NatStr(a), u] + rest)[2..] == rest;
  }

  lemma ReadOne(a: nat, u: string)
    requires UnitValue(u).Some? && ' ' !in u
    ensures ReadDuration(Words([NatStr(a), u])) == Some(a * UnitValue(u).value)
  {
    NatStrNoSpace(a);
    SplitJoin([NatStr(a), u], ' ');
    ReadPair(a, u, []);
    assert [NatStr(a), u] == [NatStr(a), u] + [];
  }

  lemma ReadTwo(a: nat, u: string, b: nat, v: string)
    requires UnitValue(u).Some? && ' ' !in u && UnitValue(v).Some? && ' ' !in v
    ensures ReadDuration(Words([NatStr(a), u, NatStr(b), v])) == Some(a * UnitValue(u).value + b * UnitValue(v).value)
  {
    var ws := [NatStr(a), u, NatStr(b), v];
    assert Split(Words(ws), ' ') == ws by {
      NatStrNoSpace(a);
      NatStrNoSpace(b);
      SplitJoin(ws, ' ');
    }
    assert ReadWords(ws) == Some(a * UnitValue(u).value + b * UnitValue(v).value) by {
      ReadPair(b, v, []);
      assert [NatStr(b), v] + [] == [NatStr(b), v];
      ReadPair(a, u, [NatStr(b), v]);
      assert ws == [NatStr(a), u] + [NatStr(b), v];
    }
  }

  /** Whole hours plus whole minutes of the rest is the span truncated to minutes. */
  lemma HoursMinutes(s: nat)
    ensures (s / 3600) * 3600 + ((s % 3600) / 60) * 60 == s - s % 60
  {
    var q, r := s / 3600, s % 3600;
    var m, t := r / 60, r % 60;
    assert s == 60 * (60 * q + m) + t;
    assert s / 60 == 60 * q + m && s % 60 == t;
  }

  /** Whole days plus whole hours of the rest is the span truncated to hours. */
  lemma DaysHours(s: nat)
    ensures (s / 86400) * 86400 + ((s % 86400) / 3600) * 3600 == s - s % 3600
  {
    var q, r := s / 86400, s % 86400;
    var h, t := r / 3600, r % 3600;
    assert s == 3600 * (24 * q + h) + t;
    assert s / 3600 == 24 * q + h && s % 3600 == t;
  }

  lemma IpDurationMinutes(s: nat)
    requires 60 <= s < 3600
    ensures ReadDuration(IpDuration(s)) == Some(s)
  {
    var m, sec := s / 60, s % 60;
    if sec > 0 {
      assert IpDuration(s) == Words([NatStr(m), "minutes", NatStr(sec), "seconds"]);
      ReadTwo(m, "minutes", sec, "seconds");
    } else {
      assert IpDuration(s) == Words([NatStr(m), "minutes"]);
      ReadOne(m, "minutes");
    }
  }

  lemma IpDurationHours(s: nat)
    requires 3600 <= s
    ensures ReadDuration(IpDuration(s)) == Some(s - s % 60)
  {
    var h, m := s / 3600, (s % 3600) / 60;
    HoursMinutes(s);
    if m > 0 {
      assert IpDuration(s) == Words([NatStr(h), "hours", NatStr(m), "minutes"]);
      ReadTwo(h, "hours", m, "minutes");
    } else {
      assert IpDuration(s) == Words([NatStr(h), "hours"]);
      ReadOne(h, "hours");
    }
  }

  /**
   * An `Attack_Duration` text stands for the span itself below one hour and
   * for the span truncated to whole minutes from one hour on.
   */
  lemma IpDurationValue(s: nat)
    ensures ReadDuration(IpDuration(s)) == Some(if s < 3600 then s else s - s % 60)
  {
    if s < 60 {
      ReadOne(s, "seconds");
    } else if s < 3600 {
      IpDurationMinutes(s);
    } else {
      IpDurationHours(s);
    }
  }

  lemma PortDurationUnderDay(s: nat)
    requires s < 86400
    ensures ReadDuration(PortDuration(s)) == Some(s - s % 60)
  {
    var h, m := s / 3600, (s % 3600) / 60;
    HoursMinutes(s);
    ReadTwo(h, "hours,", m, "minutes");
  }

  lemma PortDurationDays(s: nat)
    requires 86400 <= s
    ensures ReadDuration(PortDuration(s)) == Some(s - s % 3600)
  {
    var d, h := s / 86400, (s % 86400) / 3600;
    DaysHours(s);
    ReadTwo(d, "days,", h, "hours");
  }

  /**
   * A port `duration` text stands for the span truncated to whole minutes
   * below one day and to whole hours from one day on.
   */
  lemma PortDurationValue(s: nat)
    ensures ReadDuration(PortDuration(s)) == Some(if s < 86400 then s - s % 60 else s - s % 3600)
  {
    if s < 86400 {
      PortDurationUnderDay(s);
    } else {
      PortDurationDays(s);
    }
  }

  /** The number of words of an `Attack_Duration` text: a zero second or minute part is left out. */
  lemma IpDurationWords(s: nat)
    ensures |Split(IpDuration(s), ' ')| == (if 60 <= s < 3600 && s % 60 > 0 then 4
                                           else if 3600 <= s && (s % 3600) / 60 > 0 then 4
                                           else 2)
  {
    if s < 60 {
      NatStrNoSpace(s);
      SplitJoin([NatStr(s), "seconds"], ' ');
    } else if s < 3600 {
      NatStrNoSpace(s / 60);
      NatStrNoSpace(s % 60);
      SplitJoin([NatStr(s / 60), "minutes", NatStr(s % 60), "seconds"], ' ');
      SplitJoin([NatStr(s / 60), "minutes"], ' ');
    } else {
      NatStrNoSpace(s / 3600);
      NatStrNoSpace((s % 3600) / 60);
      SplitJoin([NatStr(s / 3600), "hours", NatStr((s % 3600) / 60), "minutes"], ' ');
      SplitJoin([NatStr(s / 3600), "hours"], ' ');
    }
  }
}
