/**
 * The per-line body of `parse_log`: a line is kept when it starts with a
 * syslog timestamp that parses in the given year and carries `SRC=`,
 * `DPT=<digits>` and `LEN=<digits>`; the kept line becomes one `Event`.
 * The log file is a sequence of lines and the year (`datetime.now().year`
 * in the program) is a parameter.
 */
module Extract {
  import opened Wrappers
  import opened Text
  import opened Calendar
  import opened Config
  import opened Events

  // ---- the leading timestamp ----

  predicate AllWord(s: string) { forall k :: 0 <= k < |s| ==> IsWordChar(s[k]) }

  predicate AllSpace(s: string) { forall k :: 0 <= k < |s| ==> IsSpace(s[k]) }

  /**
   * One greedy atom `p+` of the regular expression at the start of `s`: the
   * maximal run of `p`, when it is not empty, and what follows it.
   */
  function Atom(s: string, p: char -> bool): (r: Option<(string, string)>)
    ensures r.Some? <==> |s| > 0 && p(s[0])
    ensures r.Some? ==> |r.value.0| > 0 && (forall k :: 0 <= k < |r.value.0| ==> p(r.value.0[k]))
    ensures r.Some? ==> r.value.0 + r.value.1 == s && (|r.value.1| == 0 || !p(r.value.1[0]))
  {
    var t := TakeRun(s, p);
    if |t.0| > 0 then Some(t) else None
  }

  /** The atom is the maximal run: a non-empty run followed by something that does not continue it. */
  lemma AtomOf(x: string, y: string, p: char -> bool)
    requires |x| > 0 && forall k :: 0 <= k < |x| ==> p(x[k])
    requires |y| == 0 || !p(y[0])
    ensures Atom(x + y, p) == Some((x, y))
  {
    TakeRunOf(x, y, p);
  }

  /** The literal `:` of the regular expression: what follows it, when `s` starts with it. */
  function Colon(s: string): (r: Option<string>)
    ensures r.Some? <==> |s| > 0 && s[0] == ':'
    ensures r.Some? ==> s == ":" + r.value
  {
    if |s| > 0 && s[0] == ':' then Some(s[1..]) else None
  }

  /** The clock part `\d+:\d+:\d+` at the start of `t`: hours, minutes, seconds and the rest of the text. */
  function ScanClock(t: string): Option<(string, string, string, string)> {
    match Atom(t, IsDigit)
    case None => None
    case Some(h) =>
      match Colon(h.1)
      case None => None
      case Some(t1) =>
        match Atom(t1, IsDigit)
        case None => None
        case Some(m) =>
          match Colon(m.1)
          case None => None
          case Some(t2) =>
            match Atom(t2, IsDigit)
            case None => None
            case Some(sec) => Some((h.0, m.0, sec.0, sec.1))
  }

  /** `t` is `hh:mm:ss` followed by `rest`, each field a maximal run of digits. */
  predicate ClockSplit(t: string, hh: string, mm: string, ss: string, rest: string) {
    && t == hh + (":" + (mm + (":" + (ss + rest))))
    && |hh| > 0 && AllDigits(hh) && |mm| > 0 && AllDigits(mm) && |ss| > 0 && AllDigits(ss)
    && (|rest| == 0 || !IsDigit(rest[0]))
  }

  lemma ScanClockSound(t: string)
    requires ScanClock(t).Some?
    ensures ClockSplit(t, ScanClock(t).value.0, ScanClock(t).value.1, ScanClock(t).value.2, ScanClock(t).value.3)
  {
    var h := Atom(t, IsDigit).value;
    var t1 := Colon(h.1).value;
    var m := Atom(t1, IsDigit).value;
    var t2 := Colon(m.1).value;
    var sec := Atom(t2, IsDigit).value;
  }

  lemma ScanClockComplete(t: string, hh: string, mm: string, ss: string, rest: string)
    requires ClockSplit(t, hh, mm, ss, rest)
    ensures ScanClock(t) == Some((hh, mm, ss, rest))
  {
    var t2 := ss + rest;
    var t1 := mm + (":" + t2);
    AtomOf(hh, ":" + t1, IsDigit);
    AtomOf(mm, ":" + t2, IsDigit);
    AtomOf(ss, rest, IsDigit);
  }

  /** The five fields of the text `^(\w+\s+\d+\s+\d+:\d+:\d+)` captures. */
  datatype RawStamp = RawStamp(month: string, day: string, hour: string, minute: string, second: string)

  /**
   * The leading-timestamp regular expression. Adjacent atoms use disjoint
   * character classes, so each greedy atom takes its maximal run and no
   * backtracking can produce another match.
   */
  function ScanTimestamp(line: string): (r: Option<RawStamp>)
    ensures r.Some? ==> (|r.value.month| > 0 && |r.value.day| > 0 && |r.value.hour| > 0
                         && |r.value.minute| > 0 && |r.value.second| > 0)
    ensures r.Some? ==> AllDigits(r.value.day) && AllDigits(r.value.hour) && AllDigits(r.value.minute) && AllDigits(r.value.second)
  {
    match Atom(line, IsWordChar)
    case None => None
    case Some(w) =>
      match Atom(w.1, IsSpace)
      case None => None
      case Some(g1) =>
        match Atom(g1.1, IsDigit)
        case None => None
        case Some(d) =>
          match Atom(d.1, IsSpace)
          case None => None
          case Some(g2) =>
            match ScanClock(g2.1)
            case None => None
            case Some(c) =>
              ScanClockSound(g2.1);
              Some(RawStamp(w.0, d.0, c.0, c.1, c.2))
  }

  /**
   * `line` is the text `raw` was cut from: a word, spaces, the day, spaces and
   * the clock, each a maximal run of its class, then the rest of the line.
   */
  predicate StampSplit(line: string, raw: RawStamp, s1: string, s2: string, rest: string) {
    && line == raw.month + (s1 + (raw.day + (s2 + ClockText(raw, rest))))
    && |raw.month| > 0 && AllWord(raw.month) && |s1| > 0 && AllSpace(s1)
    && |raw.day| > 0 && AllDigits(raw.day) && |s2| > 0 && AllSpace(s2)
    && |raw.hour| > 0 && AllDigits(raw.hour) && |raw.minute| > 0 && AllDigits(raw.minute)
    && |raw.second| > 0 && AllDigits(raw.second)
    && (|rest| == 0 || !IsDigit(rest[0]))
  }

  /** The clock of a timestamp and the rest of the line: `hh:mm:ss` and what follows. */
  function ClockText(raw: RawStamp, rest: string): string {
    raw.hour + (":" + (raw.minute + (":" + (raw.second + rest))))
  }

  /** Completeness: every text of the shape is recognised, field by field. */
  lemma ScanShape(line: string, raw: RawStamp, s1: string, s2: string, rest: string)
    requires StampSplit(line, raw, s1, s2, rest)
    ensures ScanTimestamp(line) == Some(raw)
  {
    var c := ClockText(raw, rest);
    ScanClockComplete(c, raw.hour, raw.minute, raw.second, rest);
    ScanHead(line, raw.month, s1, raw.day, s2, c);
  }

  /** The word, spaces, day and spaces of a timestamp, each a maximal run, leave the clock text. */
  lemma ScanHead(line: string, w: string, s1: string, dd: string, s2: string, c: string)
    requires line == w + (s1 + (dd + (s2 + c)))
    requires |w| > 0 && AllWord(w) && |s1| > 0 && AllSpace(s1)
    requires |dd| > 0 && AllDigits(dd) && |s2| > 0 && AllSpace(s2)
    requires |c| > 0 && IsDigit(c[0])
    ensures ScanTimestamp(line) == match ScanClock(c)
                                  case None => None
                                  case Some(k) => Some(RawStamp(w, dd, k.0, k.1, k.2))
  {
    AtomOf(w, s1 + (dd + (s2 + c)), IsWordChar);
    AtomOf(s1, dd + (s2 + c), IsSpace);
    AtomOf(dd, s2 + c, IsDigit);
    AtomOf(s2, c, IsSpace);
  }

  /** Soundness: what the scanner returns was cut from a text of the shape. */
  lemma ScanSound(line: string)
    requires ScanTimestamp(line).Some?
    ensures exists s1, s2, rest :: StampSplit(line, ScanTimestamp(line).value, s1, s2, rest)
  {
    var w := Atom(line, IsWordChar).value;
    var g1 := Atom(w.1, IsSpace).value;
    var d := Atom(g1.1, IsDigit).value;
    var g2 := Atom(d.1, IsSpace).value;
    var c := ScanClock(g2.1).value;
    ScanClockSound(g2.1);
    var raw := RawStamp(w.0, d.0, c.0, c.1, c.2);
    assert ScanTimestamp(line) == Some(raw);
    assert StampSplit(line, raw, g1.0, g2.0, c.3);
  }

  /**
   * The scanner returns exactly the fields of the shape
   * `\w+\s+\d+\s+\d+:\d+:\d+` at the start of the line, each atom taking
   * its maximal run.
   */
  lemma ScanTimestampIff(line: string, raw: RawStamp)
    ensures ScanTimestamp(line) == Some(raw) <==> exists s1, s2, rest :: StampSplit(line, raw, s1, s2, rest)
  {
    if ScanTimestamp(line) == Some(raw) {
      ScanSound(line);
    }
    if exists s1, s2, rest :: StampSplit(line, raw, s1, s2, rest) {
      var s1, s2, rest :| StampSplit(line, raw, s1, s2, rest);
      ScanShape(line, raw, s1, s2, rest);
    }
  }

  /**
   * One numeric field of `%d`, `%H`, `%M` or `%S`: one or two digits with a
   * value at most `max` (the directives' patterns `3[01]|[12]\d|0[1-9]|[1-9]`,
   * `2[0-3]|[0-1]\d|\d`, `[0-5]\d|\d` and `6[0-1]|[0-5]\d|\d` accept exactly
   * these numerals; `datetime` then rejects seconds 60 and 61).
   */
  function ReadField(t: string, max: nat): (r: Option<nat>)
    ensures r.Some? ==> r.value <= max
  {
    if 1 <= |t| <= 2 && AllDigits(t) && ParseNat(t) <= max then Some(ParseNat(t)) else None
  }

  /**
   * `datetime.strptime(f"{year} {text}", "%Y %b %d %H:%M:%S")`: the year must
   * be written with exactly four digits, the month name is matched ignoring
   * case, and the date must exist.
   */
  function ParseStamp(year: int, raw: RawStamp): (r: Option<Stamp>)
    ensures r.Some? ==> ValidStamp(r.value) && r.value.date.year == year
    ensures r.Some? ==> Names(raw.month, r.value.date.month)
  {
    var m := MonthNumber(raw.month);
    match (ReadField(raw.day, 31), ReadField(raw.hour, 23), ReadField(raw.minute, 59), ReadField(raw.second, 59))
    case (Some(d), Some(h), Some(mi), Some(s)) =>
      if 1000 <= year <= 9999 && 1 <= m && 1 <= d <= DaysInMonth(year, m) then
        Some(Stamp(Date(year, m, d), h, mi, s))
      else
        None
    case _ => None
  }

  /** The timestamp of a line, when it has one that parses in `year`. */
  function LineStamp(year: int, line: string): Option<Stamp> {
    match ScanTimestamp(line)
    case None => None
    case Some(raw) => ParseStamp(year, raw)
  }

  /**
   * How syslog writes a timestamp at the start of a line: the English month
   * abbreviation, the day padded with a space to two characters, and the
   * time of day.
   */
  function SyslogText(st: Stamp): string
    requires 1 <= st.date.month <= 12
  {
    MonthNames[st.date.month - 1] + " " + (if st.date.day < 10 then " " else "") + NatStr(st.date.day) + " " + TimeText(st)
  }

  lemma ReadPadded(n: nat, max: nat)
    requires n <= max && n < 100
    ensures ReadField(Padded(n, 2), max) == Some(n)
  {
    assert Pow10(2) == 100;
    ParsePadded(n, 2);
  }

  lemma ReadNatStr(n: nat, max: nat)
    requires n <= max && n < 100
    ensures ReadField(NatStr(n), max) == Some(n)
  {
    ParseNatStr(n);
    if n >= 10 {
      assert NatStr(n) == NatStr(n / 10) + [DigitChar(n % 10)];
    }
  }

  /** The fields of a syslog timestamp, as the scanner cuts them out. */
  function SyslogFields(st: Stamp): RawStamp
    requires 1 <= st.date.month <= 12
  {
    RawStamp(MonthNames[st.date.month - 1], NatStr(st.date.day), Padded(st.hour, 2), Padded(st.minute, 2), Padded(st.second, 2))
  }

  lemma MonthNameWord(k: int)
    requires 1 <= k <= 12
    ensures |MonthNames[k - 1]| > 0 && AllWord(MonthNames[k - 1])
  {
  }

  lemma SyslogLayout(st: Stamp, rest: string)
    requires 1 <= st.date.month <= 12
    ensures SyslogText(st) + rest
      == MonthNames[st.date.month - 1] + ((if st.date.day < 10 then "  " else " ") + (NatStr(st.date.day) + (" "
         + ClockText(SyslogFields(st), rest))))
  {
  }

  lemma ScanSyslog(st: Stamp, rest: string)
    requires ValidStamp(st)
    requires |rest| == 0 || !IsDigit(rest[0])
    ensures ScanTimestamp(SyslogText(st) + rest) == Some(SyslogFields(st))
  {
    MonthNameWord(st.date.month);
    SyslogLayout(st, rest);
    ScanShape(SyslogText(st) + rest, SyslogFields(st), if st.date.day < 10 then "  " else " ", " ", rest);
  }

  lemma ParseSyslogFields(st: Stamp)
    requires ValidStamp(st) && 1000 <= st.date.year
    ensures ParseStamp(st.date.year, SyslogFields(st)) == Some(st)
  {
    MonthNumberOfName(st.date.month);
    ReadNatStr(st.date.day, 31);
    ReadPadded(st.hour, 23);
    ReadPadded(st.minute, 59);
    ReadPadded(st.second, 59);
  }

  /**
   * A line starting with a syslog timestamp yields that timestamp back when it
   * is read in the timestamp's own year (and the seconds are not followed by
   * a further digit).
   */
  lemma StampRoundTrip(st: Stamp, rest: string)
    requires ValidStamp(st) && 1000 <= st.date.year
    requires |rest| == 0 || !IsDigit(rest[0])
    ensures LineStamp(st.date.year, SyslogText(st) + rest) == Some(st)
  {
    ScanSyslog(st, rest);
    ParseSyslogFields(st);
  }

  // ---- the SRC=, DPT= and LEN= tokens ----

  /** `key` occurs at `i` and is followed by a character of the value class `p`. */
  predicate TokenAt(line: string, key: string, p: char -> bool, i: int) {
    OccursAt(line, key, i) && i + |key| < |line| && p(line[i + |key|])
  }

  predicate HasToken(line: string, key: string, p: char -> bool) {
    exists i :: 0 <= i < |line| && TokenAt(line, key, p, i)
  }

  /** The match `re.search` finds: the leftmost token. */
  predicate IsFirstToken(line: string, key: string, p: char -> bool, i: int) {
    TokenAt(line, key, p, i) && forall j :: 0 <= j < i ==> !TokenAt(line, key, p, j)
  }

  /**
   * The match `findall(...)[-1]` finds: the rightmost token (matches of
   * `LEN=\d+` cannot overlap, so every token is one of `findall`'s matches).
   */
  predicate IsLastToken(line: string, key: string, p: char -> bool, i: int) {
    TokenAt(line, key, p, i) && forall j :: i < j < |line| ==> !TokenAt(line, key, p, j)
  }

  function FirstToken(line: string, key: string, p: char -> bool, from: nat): (r: Option<nat>)
    ensures r.Some? ==> from <= r.value && TokenAt(line, key, p, r.value)
    ensures r.Some? ==> forall j :: from <= j < r.value ==> !TokenAt(line, key, p, j)
    ensures r.None? ==> forall j :: from <= j ==> !TokenAt(line, key, p, j)
    decreases |line| - from
  {
    if from >= |line| then None
    else if TokenAt(line, key, p, from) then Some(from)
    else FirstToken(line, key, p, from + 1)
  }

  function LastToken(line: string, key: string, p: char -> bool, upto: nat): (r: Option<nat>)
    ensures r.Some? ==> r.value < upto && TokenAt(line, key, p, r.value)
    ensures r.Some? ==> forall j :: r.value < j < upto ==> !TokenAt(line, key, p, j)
    ensures r.None? ==> forall j :: 0 <= j < upto ==> !TokenAt(line, key, p, j)
  {
    if upto == 0 then None
    else if TokenAt(line, key, p, upto - 1) then Some(upto - 1)
    else LastToken(line, key, p, upto - 1)
  }

  lemma FirstTokenIs(line: string, key: string, p: char -> bool)
    ensures FirstToken(line, key, p, 0).Some? <==> HasToken(line, key, p)
    ensures FirstToken(line, key, p, 0).Some? ==> IsFirstToken(line, key, p, FirstToken(line, key, p, 0).value)
  {
  }

  lemma LastTokenIs(line: string, key: string, p: char -> bool)
    ensures LastToken(line, key, p, |line|).Some? <==> HasToken(line, key, p)
    ensures LastToken(line, key, p, |line|).Some? ==> IsLastToken(line, key, p, LastToken(line, key, p, |line|).value)
  {
  }

  /** The group a token's `(\S+)` or `(\d+)` captures: the maximal run of `p` after the key. */
  function TokenValue(line: string, key: string, p: char -> bool, i: nat): (v: string)
    requires TokenAt(line, key, p, i)
    ensures |v| > 0 && forall k :: 0 <= k < |v| ==> p(v[k])
  {
    var j := Run(line, i + |key|, p);
    RunFacts(line, i + |key|, p);
    line[i + |key|..j]
  }

  /** `int(...)` of a digits token. */
  function TokenNumber(line: string, key: string, i: nat): nat
    requires TokenAt(line, key, IsDigit, i)
  {
    var v := TokenValue(line, key, IsDigit, i);
    assert AllDigits(v);
    ParseNat(v)
  }

  // ---- the attack pattern ----

  /** Entry `k` of the signature table marks the line: its trimmed prefix occurs in it. */
  predicate Marks(table: SignatureTable, line: string, k: int) {
    0 <= k < |table| && Contains(line, Strip(table[k].1))
  }

  function FirstMark(table: SignatureTable, line: string, from: nat): (r: Option<nat>)
    ensures r.Some? ==> from <= r.value && Marks(table, line, r.value)
    ensures r.Some? ==> forall j :: from <= j < r.value ==> !Marks(table, line, j)
    ensures r.None? ==> forall j :: from <= j ==> !Marks(table, line, j)
    decreases |table| - from
  {
    if from >= |table| then None
    else if Marks(table, line, from) then Some(from)
    else FirstMark(table, line, from + 1)
  }

  /** Entry `k` marks the line and no earlier entry does. */
  predicate FirstMarked(table: SignatureTable, line: string, k: int) {
    Marks(table, line, k) && forall j :: 0 <= j < k ==> !Marks(table, line, j)
  }

  /**
   * The pattern of a line: the name of the first table entry, in table order,
   * whose trimmed prefix occurs in the line, and `"UNKNOWN"` when none does.
   */
  function DetectPattern(table: SignatureTable, line: string): (r: string)
    ensures (forall k :: !Marks(table, line, k)) ==> r == "UNKNOWN"
    ensures forall k :: FirstMarked(table, line, k) ==> r == table[k].0
  {
    match FirstMark(table, line, 0)
    case None => "UNKNOWN"
    case Some(k) =>
      FirstMarkOnly(table, line, k);
      table[k].0
  }

  /** No other entry is the first to mark the line. */
  lemma FirstMarkOnly(table: SignatureTable, line: string, k: nat)
    requires FirstMark(table, line, 0) == Some(k)
    ensures forall j :: FirstMarked(table, line, j) ==> j == k
  {
  }

  // ---- one line, and the whole log ----

  /**
   * The event of a line whose timestamp is `st`, if the line has all three
   * tokens: the first `SRC=` value, the first `DPT=` number with its role,
   * the detected pattern and the last `LEN=` number.
   */
  function ReadTokens(line: string, st: Stamp, settings: Settings): (r: Option<Event>)
    ensures r.Some? <==> (HasToken(line, "SRC=", NotSpace) && HasToken(line, "DPT=", IsDigit)
                          && HasToken(line, "LEN=", IsDigit))
    ensures r.Some? ==> r.value.stamp == st
    ensures r.Some? ==> r.value.role == ClassifyPort(r.value.port, settings.gamePorts, settings.tvPorts)
    ensures r.Some? ==> r.value.pattern == DetectPattern(settings.signatures, line)
  {
    var src := FirstToken(line, "SRC=", NotSpace, 0);
    var dpt := FirstToken(line, "DPT=", IsDigit, 0);
    var len := LastToken(line, "LEN=", IsDigit, |line|);
    FirstTokenIs(line, "SRC=", NotSpace);
    FirstTokenIs(line, "DPT=", IsDigit);
    LastTokenIs(line, "LEN=", IsDigit);
    if src.None? || dpt.None? || len.None? then
      None
    else
      var port := TokenNumber(line, "DPT=", dpt.value);
      Some(Event(
        TokenValue(line, "SRC=", NotSpace, src.value),
        port,
        ClassifyPort(port, settings.gamePorts, settings.tvPorts),
        DetectPattern(settings.signatures, line),
        TokenNumber(line, "LEN=", len.value),
        st))
  }

  lemma FirstTokenUnique(line: string, key: string, p: char -> bool, i: int, j: int)
    requires IsFirstToken(line, key, p, i) && IsFirstToken(line, key, p, j)
    ensures i == j
  {
  }

  lemma LastTokenUnique(line: string, key: string, p: char -> bool, i: int, j: int)
    requires IsLastToken(line, key, p, i) && IsLastToken(line, key, p, j)
    ensures i == j
  {
  }

  /** The address of a read event is the value of the leftmost `SRC=` token. */
  lemma ReadTokensAddress(line: string, st: Stamp, settings: Settings, i: nat)
    requires ReadTokens(line, st, settings).Some?
    requires IsFirstToken(line, "SRC=", NotSpace, i)
    ensures ReadTokens(line, st, settings).value.ip == TokenValue(line, "SRC=", NotSpace, i)
  {
    FirstTokenIs(line, "SRC=", NotSpace);
    FirstTokenUnique(line, "SRC=", NotSpace, i, FirstToken(line, "SRC=", NotSpace, 0).value);
  }

  /** The port of a read event is the number of the leftmost `DPT=` token. */
  lemma ReadTokensPort(line: string, st: Stamp, settings: Settings, j: nat)
    requires ReadTokens(line, st, settings).Some?
    requires IsFirstToken(line, "DPT=", IsDigit, j)
    ensures ReadTokens(line, st, settings).value.port == TokenNumber(line, "DPT=", j)
  {
    FirstTokenIs(line, "DPT=", IsDigit);
    FirstTokenUnique(line, "DPT=", IsDigit, j, FirstToken(line, "DPT=", IsDigit, 0).value);
  }

  /** The length of a read event is the number of the rightmost `LEN=` token. */
  lemma ReadTokensLength(line: string, st: Stamp, settings: Settings, k: nat)
    requires ReadTokens(line, st, settings).Some?
    requires IsLastToken(line, "LEN=", IsDigit, k)
    ensures ReadTokens(line, st, settings).value.length == TokenNumber(line, "LEN=", k)
  {
    LastTokenIs(line, "LEN=", IsDigit);
    LastTokenUnique(line, "LEN=", IsDigit, k, LastToken(line, "LEN=", IsDigit, |line|).value);
  }

  /** The event a line yields, if it is kept: a line without a valid timestamp is skipped first. */
  function ExtractLine(year: int, line: string, settings: Settings): (r: Option<Event>)
    ensures r.Some? <==> LineStamp(year, line).Some? && ReadTokens(line, LineStamp(year, line).value, settings).Some?
    ensures r.Some? ==> r == ReadTokens(line, LineStamp(year, line).value, settings) && ValidStamp(r.value.stamp)
  {
    match LineStamp(year, line)
    case None => None
    case Some(st) => ReadTokens(line, st, settings)
  }

  /** What one line adds to the event table: its event when it is kept, nothing otherwise. */
  function Kept(year: int, line: string, settings: Settings): (r: seq<Event>)
    ensures |r| == (if ExtractLine(year, line, settings).Some? then 1 else 0)
    ensures forall e :: e in r <==> ExtractLine(year, line, settings) == Some(e)
  {
    match ExtractLine(year, line, settings)
    case Some(e) => [e]
    case None => []
  }

  /**
   * One line of the log together with the year the clock shows when
   * `parse_log` reaches it: the program reads `datetime.now().year` afresh for
   * every line, so a run across midnight of 31 December dates later lines in
   * the next year.
   */
  datatype LogLine = LogLine(year: int, text: string)

  /** The per-line step of `parse_log` for one configuration. */
  function Keeper(settings: Settings): LogLine -> seq<Event> {
    (line: LogLine) => Kept(line.year, line.text, settings)
  }

  /** The pieces `f` makes of the elements of `xs`, one after another. */
  function Flatten<T, U>(xs: seq<T>, f: T -> seq<U>): seq<U> {
    if |xs| == 0 then [] else f(xs[0]) + Flatten(xs[1..], f)
  }

  lemma {:induction false} FlattenAppend<T, U>(a: seq<T>, b: seq<T>, f: T -> seq<U>)
    ensures Flatten(a + b, f) == Flatten(a, f) + Flatten(b, f)
  {
    if |a| > 0 {
      assert (a + b)[0] == a[0];
      assert (a + b)[1..] == a[1..] + b;
      FlattenAppend(a[1..], b, f);
    } else {
      assert a + b == b;
    }
  }

  lemma {:induction false} FlattenMembers<T, U>(xs: seq<T>, f: T -> seq<U>, u: U)
    ensures u in Flatten(xs, f) <==> exists k :: 0 <= k < |xs| && u in f(xs[k])
  {
    if |xs| > 0 {
      FlattenMembers(xs[1..], f, u);
      assert forall k :: 1 <= k < |xs| ==> xs[k] == xs[1..][k - 1];
      if exists k :: 0 <= k < |xs| && u in f(xs[k]) {
        var k :| 0 <= k < |xs| && u in f(xs[k]);
        if k > 0 {
          assert u in f(xs[1..][k - 1]);
        }
      }
    }
  }

  lemma {:induction false} FlattenLength<T, U>(xs: seq<T>, f: T -> seq<U>)
    requires forall x :: x in xs ==> |f(x)| <= 1
    ensures |Flatten(xs, f)| <= |xs|
  {
    if |xs| > 0 {
      FlattenLength(xs[1..], f);
    }
  }

  /** `parse_log`: the events of the kept lines, in line order. */
  function ParseLog(lines: seq<LogLine>, settings: Settings): (r: seq<Event>)
    ensures |r| <= |lines|
  {
    FlattenLength(lines, Keeper(settings));
    Flatten(lines, Keeper(settings))
  }

  /** Reading a log in two pieces gives the events of the first piece, then those of the second. */
  lemma ParseLogAppend(a: seq<LogLine>, b: seq<LogLine>, settings: Settings)
    ensures ParseLog(a + b, settings) == ParseLog(a, settings) + ParseLog(b, settings)
  {
    FlattenAppend(a, b, Keeper(settings));
  }

  /** The events are exactly those of the kept lines: no line is skipped with an error and none invents an event. */
  lemma ParseLogMembers(lines: seq<LogLine>, settings: Settings, e: Event)
    ensures e in ParseLog(lines, settings)
      <==> exists k :: 0 <= k < |lines| && ExtractLine(lines[k].year, lines[k].text, settings) == Some(e)
  {
    FlattenMembers(lines, Keeper(settings), e);
    assert forall k :: 0 <= k < |lines| ==>
      (e in Keeper(settings)(lines[k]) <==> ExtractLine(lines[k].year, lines[k].text, settings) == Some(e));
  }

  /**
   * Every event comes from a line, with a valid timestamp in the year the
   * clock showed for that line, and with its port's role.
   */
  lemma ParseLogEvents(lines: seq<LogLine>, settings: Settings, e: Event)
    requires e in ParseLog(lines, settings)
    ensures exists k :: 0 <= k < |lines| && ExtractLine(lines[k].year, lines[k].text, settings) == Some(e) && e.stamp.date.year == lines[k].year
    ensures ValidStamp(e.stamp)
    ensures e.role == ClassifyPort(e.port, settings.gamePorts, settings.tvPorts)
  {
    ParseLogMembers(lines, settings, e);
    var k :| 0 <= k < |lines| && ExtractLine(lines[k].year, lines[k].text, settings) == Some(e);
  }

  /** When the clock shows one year for the whole run, every event is dated in that year. */
  lemma ParseLogSameYear(lines: seq<LogLine>, settings: Settings, year: int, e: Event)
    requires forall k :: 0 <= k < |lines| ==> lines[k].year == year
    requires e in ParseLog(lines, settings)
    ensures e.stamp.date.year == year
  {
    ParseLogEvents(lines, settings, e);
  }

  /** A line that is kept contributes exactly one event, and a skipped line none. */
  lemma ParseLogOne(line: LogLine, settings: Settings)
    ensures |ParseLog([line], settings)| == (if ExtractLine(line.year, line.text, settings).Some? then 1 else 0)
  {
    var f := Keeper(settings);
    assert [line][1..] == [];
    assert Flatten([line], f) == f(line) + Flatten([], f);
  }
}
