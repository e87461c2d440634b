# iptables attack-log analyser — a Dafny model

The analyser reads the kernel log lines that the firewall rules of a Left 4
Dead 2 game server write for rejected or rate-limited packets. It turns every
usable line into an event: source address, destination port and that port's
role, attack pattern, packet length and timestamp. From the events it builds
six reports: by source address, by destination port, by day, by week, by
month and by attack type.

This project models that core as pure functions over immutable datatypes:

- `Config` holds the port settings (`expand_ports`, `int()` on ASCII text),
  the port classifier and the signature table.
- `Extract` holds the per-line logic of `parse_log`:
  - the leading-timestamp regular expression, as a scanner over maximal runs;
  - `strptime` with a given year;
  - the `SRC=`, `DPT=` and `LEN=` tokens;
  - pattern detection in table order;
  - the whole log as a sequence of lines, each paired with the year the
    clock shows when the line is reached.
- `Tally` models `groupby`, `value_counts`, `unique`, `nunique`, the stable
  "sort by count, descending" and top-N truncation. It also holds the
  count-conservation facts the reports rely on.
- `Calendar` holds proleptic Gregorian dates, day ordinals (so that time
  differences are exact), `timedelta` day arithmetic and the `strftime`
  renderings used as keys and labels. It also shows that these renderings
  order exactly like the dates.
- `Durations` holds the two duration texts and a reader that recovers how
  many seconds a text stands for.
- `ReportByIp`, `ReportByPort`, `ReportByDay`, `ReportByPeriod` (weekly and
  monthly reports share one definition over the period key) and
  `ReportByAttackType` hold the report builders.
- `Ordering`, `Text` and `Wrappers` are the supporting vocabulary:
  - strict total orders, including Python's `str` comparison;
  - character classes, runs, `in`, `strip` and `split`;
  - `Option` and `Result`.

A `groupby` visits its keys in ascending order, and every later sort is
stable. So "sort by count, descending" comes out as count descending with
ties in ascending key order. This also holds for the attacker lists of the
port and day reports: equal counts appear in ascending address order, not
in the order the addresses were first seen.

## Model

| member | source | states |
|---|---|---|
| Config.ClassifyPort | iptable.loggin.py:131-137 | the role is GameServer exactly when the port is a game port (even if it is also a SourceTV port), SourceTV exactly when it is only a SourceTV port, Other exactly when it is in neither list |
| Config.ReadDigits | iptable.loggin.py:125-128 | an unsigned literal reads exactly when it is digits with single underscores between them; an all-digit literal reads as its decimal value |
| Config.ParseInt | iptable.loggin.py:125-128 | `int()` succeeds exactly when the text without its surrounding whitespace is an optional `+` or `-` followed by digits joined by single underscores |
| Config.ParseIntAccepts | iptable.loggin.py:125-128 | `int()` accepts a text exactly when it is such a literal with nothing but whitespace before and after it, so a space after the sign, a leading, trailing or doubled underscore and blank text are all rejected |
| Config.ParseIntLiteral | iptable.loggin.py:125-128 | a literal padded with whitespace reads as the value of its digits with underscores ignored, negated after a `-` |
| Config.ParseIntPadded | iptable.loggin.py:125-128 | `int(w1 + sign + str(n) + w2)` is `n`, or `-n` when the sign is `-`, for any whitespace `w1`, `w2` and a sign of `""`, `+` or `-` |
| Config.ParseIntStr | iptable.loggin.py:125-128 | `int(str(i)) == i` for every integer, negative ones included, where the interpreter sets no digit limit |
| Config.Range | iptable.loggin.py:126 | `range(a, b + 1)` has `b - a + 1` elements (none when `a > b`) and element `i` is `a + i` |
| Config.ExpandParts | iptable.loggin.py:123-128 | the parts expand exactly when every part reads as a port or a range; the result is the parts' ports concatenated in order; otherwise the error names the first part that does not read |
| Config.ExpandPorts | iptable.loggin.py:119-129 | the empty setting gives no ports; otherwise the expansion succeeds exactly when every comma-separated part reads |
| Config.ParseSpecText | iptable.loggin.py:124-128 | a written single port or `a:b` range reads back as itself |
| Config.ParseSpanText | iptable.loggin.py:124-126 | a written `a:b` range splits at its one colon and reads back as the range |
| Config.ExpandSpecTexts | iptable.loggin.py:123-128 | expanding the written parts gives the ports of the parts in order |
| Config.ExpandPortsOfText | iptable.loggin.py:119-129 | round trip: a port list written as comma-separated singles and ranges expands to each single port and each range's ports in order, and the empty list to no ports |
| Config.FlattenCovers | iptable.loggin.py:123-128 | a port is in the expanded list exactly when one of the parts covers it |
| Wrappers.ReadAll | iptable.loggin.py:123-128 | reading every part succeeds exactly when each part reads, and then yields each part's value at its position |
| Wrappers.FirstNone | iptable.loggin.py:123-128 | the position reported is a part that does not read, and every earlier part reads |
| Text.ParseNatStr | iptable.loggin.py:175 | `int()` of the decimal numeral of `n` is `n` |
| Text.RunFacts | iptable.loggin.py:141-144 | a greedy run consists of characters of its class and stops at the end of the text or at a character outside the class |
| Text.RunStops | iptable.loggin.py:141-144 | a greedy run ends exactly where the characters of its class end |
| Text.TakeRunOf | iptable.loggin.py:144 | a run of a class followed by a character outside the class is split exactly there |
| Text.Contains | iptable.loggin.py:180 | `sub in s` holds exactly when `sub` occurs at some position of `s` |
| Text.Strip | iptable.loggin.py:180 | `strip()` leaves no whitespace at either end, never lengthens the text, and leaves a text that does not start or end with whitespace unchanged |
| Text.StripRemoves | iptable.loggin.py:180 | what `strip()` removes is whitespace only: the result sits inside the text with only whitespace around it |
| Text.Split | iptable.loggin.py:123-125 | `split` always gives at least one piece |
| Text.SplitFacts | iptable.loggin.py:123-125 | no piece contains the separator, and joining the pieces gives back the text |
| Text.SplitJoin | iptable.loggin.py:123-125 | splitting a join of separator-free pieces gives back the pieces |
| Extract.Atom | iptable.loggin.py:144 | a `p+` atom matches exactly when the text starts with a character of `p`; it takes the whole maximal run and leaves the rest |
| Extract.AtomOf | iptable.loggin.py:144 | a non-empty run followed by a non-member is exactly what the atom takes |
| Extract.ScanClockSound | iptable.loggin.py:144 | a recognised clock is `hh:mm:ss` followed by the rest, each field a maximal run of digits |
| Extract.ScanClockComplete | iptable.loggin.py:144 | every text of the shape `hh:mm:ss` plus a rest that does not continue the seconds is recognised with exactly those fields |
| Extract.ScanTimestamp | iptable.loggin.py:144 | every captured field is non-empty, and the day, hour, minute and second fields are digits |
| Extract.ScanSound | iptable.loggin.py:144 | soundness: a recognised timestamp was cut from a line of the shape `\w+\s+\d+\s+\d+:\d+:\d+`, each atom a maximal run |
| Extract.ScanShape | iptable.loggin.py:144 | completeness: every line of that shape is recognised, with exactly its fields |
| Extract.ScanTimestampIff | iptable.loggin.py:144 | the scanner returns the fields `raw` if and only if the line starts with the shape made of those fields |
| Extract.ReadField | iptable.loggin.py:162 | a numeric `strptime` field never reads above its maximum |
| Extract.ReadPadded | iptable.loggin.py:162 | a zero-padded two-digit field reads back as its value |
| Extract.ReadNatStr | iptable.loggin.py:162 | an unpadded field reads back as its value |
| Extract.ParseStamp | iptable.loggin.py:158-166 | a parsed timestamp is a valid date and time in the given year, in the month its name abbreviates (ignoring case) |
| Extract.ScanSyslog | iptable.loggin.py:144 | the regular expression captures exactly the fields of a timestamp as syslog writes it |
| Extract.ParseSyslogFields | iptable.loggin.py:158-166 | `strptime` reads those fields back as the original timestamp |
| Extract.StampRoundTrip | iptable.loggin.py:150-166 | round trip: a line starting with a syslog timestamp yields that timestamp when read in its own year |
| Extract.FirstToken | iptable.loggin.py:168-169 | the position found holds a token and no earlier one does; no position is found only when the line has no token |
| Extract.LastToken | iptable.loggin.py:170 | the position found holds a token and no later one does; no position is found only when the line has no token |
| Extract.FirstTokenIs | iptable.loggin.py:168-169 | `search` finds a token exactly when the line has one, and it finds the leftmost |
| Extract.LastTokenIs | iptable.loggin.py:170 | `findall(...)[-1]` exists exactly when the line has a token, and it is the rightmost |
| Extract.TokenValue | iptable.loggin.py:141-143 | a captured group is non-empty and made of its class (`\S` or `\d`) |
| Extract.FirstMark | iptable.loggin.py:179-182 | the entry found marks the line and no earlier one does; none is found only when no entry from the start position on marks the line |
| Extract.DetectPattern | iptable.loggin.py:177-182 | the pattern is the name of the first table entry whose stripped prefix occurs in the line, and `UNKNOWN` when none does |
| Extract.FirstMarkOnly | iptable.loggin.py:177-182 | the first marking entry is unique |
| Extract.ReadTokens | iptable.loggin.py:168-189 | a line yields an event exactly when it has `SRC=\S`, `DPT=\d` and `LEN=\d` tokens; the event carries the given timestamp, the classification of its port and the detected pattern |
| Extract.ReadTokensAddress | iptable.loggin.py:185 | the address is the value of the leftmost `SRC=` token |
| Extract.ReadTokensPort | iptable.loggin.py:175 | the port is the number of the leftmost `DPT=` token |
| Extract.ReadTokensLength | iptable.loggin.py:189 | the length is the number of the rightmost `LEN=` token |
| Extract.ExtractLine | iptable.loggin.py:149-193 | a line is kept exactly when its timestamp parses in the clock's year and it has all three tokens; a kept line's event has a valid timestamp |
| Extract.Kept | iptable.loggin.py:172-193 | a line contributes one event when it is kept and none otherwise, and that event is the line's |
| Extract.ParseLog | iptable.loggin.py:139-195 | there are never more events than lines |
| Extract.ParseLogAppend | iptable.loggin.py:146-195 | line order is kept: reading a log in two pieces gives the first piece's events, then the second's |
| Extract.ParseLogMembers | iptable.loggin.py:149-193 | an event is in the table exactly when some line yields it: no line is lost and none invents an event |
| Extract.ParseLogEvents | iptable.loggin.py:158-187 | every event comes from a line and has a valid timestamp in the year the clock showed for that line, and its role is its port's classification |
| Extract.ParseLogSameYear | iptable.loggin.py:160-162 | when the clock shows one year for the whole run, every event is dated in that year |
| Extract.ParseLogOne | iptable.loggin.py:172-193 | a single line contributes one event when kept and none when skipped |
| Calendar.MonthNumber | iptable.loggin.py:162 | the month `%b` reads is the one the word abbreviates (ignoring case); 0 means it abbreviates none |
| Calendar.MonthNamesDiffer | iptable.loggin.py:162 | no two month abbreviations are equal ignoring case |
| Calendar.MonthNumberOfName | iptable.loggin.py:162 | each abbreviation reads back as its own month |
| Calendar.NextDay | iptable.loggin.py:426 | the next day of a calendar date is a calendar date one day number later |
| Calendar.AddDays | iptable.loggin.py:426 | adding `n` days gives a calendar date `n` day numbers later |
| Calendar.DateLtTotal | iptable.loggin.py:350 | chronological order of dates is a strict total order |
| Calendar.MonthLtTotal | iptable.loggin.py:464 | chronological order of months is a strict total order |
| Calendar.StrLtPadded | iptable.loggin.py:163 | zero-padded numerals of one width compare as text exactly as the numbers compare |
| Calendar.PaddedInjective | iptable.loggin.py:163 | zero-padded numerals of one width are equal exactly when the numbers are |
| Calendar.DateTextOrder | iptable.loggin.py:163 | for printable dates the `YYYY-MM-DD` text is less exactly when the date is earlier, and equal exactly when the dates are equal |
| Calendar.MonthTextOrder | iptable.loggin.py:465 | the same for the `YYYY-MM` month text |
| Ordering.Insert | iptable.loggin.py:205 | inserting a new key into an ascending list keeps it ascending and adds exactly that key |
| Ordering.ReverseAscending | iptable.loggin.py:410 | reversing an ascending list gives a descending list with the same elements |
| Ordering.StrLtTotal | iptable.loggin.py:205 | Python's `str` comparison is a strict total order |
| Ordering.NatLtTotal | iptable.loggin.py:278 | the order of port numbers is a strict total order |
| Ordering.AscendingDistinct | iptable.loggin.py:205 | a strictly ascending list has no duplicates |
| Ordering.DescendingDistinct | iptable.loggin.py:410 | a strictly descending list has no duplicates |
| Tally.Select | iptable.loggin.py:205 | a group holds exactly the rows with its key, and never more rows than the table |
| Tally.CountPositive | iptable.loggin.py:205 | a key has rows exactly when some row carries it |
| Tally.KeysOf | iptable.loggin.py:205 | `groupby` visits exactly the keys that occur, each once, ascending |
| Tally.RankInsert | iptable.loggin.py:322 | inserting a new key into a ranking keeps it ranked and adds exactly that key |
| Tally.RankAll | iptable.loggin.py:322 | ranking a list of keys keeps exactly those keys and orders them by count, then key |
| Tally.RankByCount | iptable.loggin.py:338 | the stable descending sort of ascending groups lists every occurring key once, by count descending with ties ascending |
| Tally.KeysDescending | iptable.loggin.py:410 | sorting by a unique label, descending, lists every occurring key once, strictly descending |
| Tally.DistinctCount | iptable.loggin.py:510 | `nunique()` is at most the number of rows, and at least 1 for a non-empty group |
| Tally.DistinctCountOf | iptable.loggin.py:510 | `nunique()` is the number of different keys, however they are listed |
| Tally.RankedDistinct | iptable.loggin.py:338 | a ranking has no duplicates |
| Tally.CountsPartition | iptable.loggin.py:205 | when the keys list every occurring key once, the group sizes add up to the number of rows |
| Tally.BinsFor | iptable.loggin.py:298 | one bin per listed key, holding that key's count |
| Tally.Breakdown | iptable.loggin.py:298 | `value_counts()`: each bin holds its key's positive count, keys ascend, and the counts add up to the number of rows |
| Tally.Uniques | iptable.loggin.py:505 | `unique()`: every occurring key exactly once, and a key listed earlier shows up in front of every row of a key listed later |
| Tally.FirstSeenBins | iptable.loggin.py:504-507 | a dictionary filled over `unique()`: one positive bin per occurring key, in first-appearance order, the counts adding up to the number of rows |
| Tally.BreakdownCovers | iptable.loggin.py:298 | every value that occurs has its bin |
| Tally.SumOfCounts | iptable.loggin.py:327 | adding up the group sizes key by key is the sum of the groups' counts |
| Tally.GroupTotals | iptable.loggin.py:327 | a report with one entry per group, each carrying its group size, accounts for every row |
| Tally.Top | iptable.loggin.py:334 | `s[:n]` has at most `n` elements, is all of `s` when `s` is shorter, and keeps the leading elements |
| Tally.TopRanked | iptable.loggin.py:334 | truncating a ranking keeps the largest groups: a key cut off has no more rows than any key kept |
| Events.Bounds | iptable.loggin.py:219-221 | the first and last sorted timestamps bound every timestamp of the group |
| Events.BoundsAttained | iptable.loggin.py:219-221 | both bounds are timestamps of rows of the group |
| Durations.IpDurationZero | iptable.loggin.py:236-237 | a zero span reads "0 seconds" |
| Durations.IpDurationMinutes | iptable.loggin.py:228-231 | a text for a span between one minute and one hour stands for exactly that span |
| Durations.IpDurationHours | iptable.loggin.py:232-235 | from one hour on, the text stands for the span truncated to whole minutes |
| Durations.IpDurationValue | iptable.loggin.py:224-237 | an `Attack_Duration` text stands for the span itself below one hour, and for the span truncated to minutes from one hour on |
| Durations.IpDurationWords | iptable.loggin.py:226-235 | the text has four words only when the trailing second (or minute) part is non-zero, and two words otherwise |
| Durations.PortDurationUnderDay | iptable.loggin.py:288-291 | below one day, "H hours, M minutes" stands for the span truncated to minutes |
| Durations.PortDurationDays | iptable.loggin.py:292-295 | from one day on, "D days, H hours" stands for the span truncated to hours |
| Durations.PortDurationValue | iptable.loggin.py:287-295 | a port `duration` text stands for the span truncated to minutes below one day, and to hours from one day on |
| ReportByIp.TimelineOf | iptable.loggin.py:219-225 | first and last are timestamps of the group that bound all of its timestamps; the span is their difference in seconds and is 0 for one event |
| ReportByIp.DurationTextIsRendering | iptable.loggin.py:224-237 | the one-event shortcut agrees with the rendering of a zero span |
| ReportByIp.DayActivity | iptable.loggin.py:217-250 | a date's activity counts the address's events on that date, its timeline bounds them, and its types are exactly that day's patterns, sorted and distinct |
| ReportByIp.Statistics | iptable.loggin.py:253-255 | `Total_Events` holds the number of events unless a pattern of that name overwrote it; every other key is a pattern that occurs, with its count |
| ReportByIp.PatternCounts | iptable.loggin.py:253 | the dictionary holds exactly the patterns that occur, each with its count |
| ReportByIp.PortsWithRole | iptable.loggin.py:258-261 | the ports kept are exactly those whose first row has the role, still ascending |
| ReportByIp.RolePorts | iptable.loggin.py:258-261 | the ports listed are exactly the distinct ports of the group whose first row has the role, ascending |
| ReportByIp.ByIp | iptable.loggin.py:197-205 | the report is empty exactly when there are no events |
| ReportByIp.ByIpAddresses | iptable.loggin.py:205 | addresses strictly ascend, and an address has an entry exactly when some event came from it |
| ReportByIp.ActivityOrder | iptable.loggin.py:217 | the dates of an address's activity strictly ascend |
| ReportByIp.ActivityCoverage | iptable.loggin.py:217 | a date has activity exactly when the address has an event on it |
| ReportByIp.ActivityTotal | iptable.loggin.py:248 | the per-date event counts add up to the address's events |
| ReportByIp.IpEntryActivity | iptable.loggin.py:205-250 | an address's activity covers exactly the dates of its own events, and its counts add up to its events |
| ReportByIp.IpEntryPorts | iptable.loggin.py:258-264 | with roles recorded by classification, the game-server list holds exactly the address's ports that are game ports, and the SourceTV list exactly its ports that are only SourceTV ports |
| ReportByIp.RolePortsClassified | iptable.loggin.py:258-261 | the same for any group of classified events |
| ReportByPort.AttackerEntry | iptable.loggin.py:302-319 | an attacker's total is its number of rows; its pattern and per-day tallies add up to it; days ascend, each with a positive count of that day's rows |
| ReportByPort.AttackerList | iptable.loggin.py:301-319 | the attackers follow the given addresses one for one, with their counts |
| ReportByPort.AttackerTimeSpan | iptable.loggin.py:315-316 | an attacker's first and last timestamps bound all of its events on the port |
| ReportByPort.AttackersKeys | iptable.loggin.py:301-322 | the attackers follow the address ranking one for one |
| ReportByPort.PortEntry | iptable.loggin.py:278-335 | a port entry counts the port's events, its pattern tally adds up to that count, and it lists at most ten attackers |
| ReportByPort.PortAttackers | iptable.loggin.py:321-334 | a port's attackers carry their own event counts on the port, most first and ties by ascending address; an address that attacked the port is listed, or else ten are listed and none has fewer events |
| ReportByPort.TopAttackersComplete | iptable.loggin.py:333 | an attacker is kept by `[:n]`, or else `n` attackers are kept and none has fewer events |
| ReportByPort.PortTimeSpan | iptable.loggin.py:282-284 | a port's first and last timestamps bound all of its events |
| ReportByPort.PortElapsed | iptable.loggin.py:287 | a port's elapsed time is the largest gap in seconds between two of its events, and two of its events are that far apart |
| ReportByPort.SpanTextValue | iptable.loggin.py:286-295 | a port's `duration` text stands for its elapsed seconds truncated to minutes below one day, and to hours from one day on |
| ReportByPort.PortList | iptable.loggin.py:278-335 | the entries follow the given ports one for one, with their counts |
| ReportByPort.ByPort | iptable.loggin.py:270-273 | the report is empty exactly when there are no events |
| ReportByPort.ByPortKeys | iptable.loggin.py:337-338 | entry `i` is the `i`-th port of the ranking, with its count |
| ReportByPort.PortRankingCovers | iptable.loggin.py:278 | a port is ranked exactly when some event hit it |
| ReportByPort.ByPortListsRanking | iptable.loggin.py:338 | a port has an entry exactly when it is ranked |
| ReportByPort.ByPortCoverage | iptable.loggin.py:278 | a port has an entry exactly when some event hit it |
| ReportByPort.ByPortOrder | iptable.loggin.py:337-338 | entries are by total descending, ties by ascending port, so no port appears twice |
| ReportByPort.PortListTotal | iptable.loggin.py:327 | any listing of the ports, each once, accounts for every event |
| ReportByPort.ByPortTotal | iptable.loggin.py:327 | the port totals add up to the number of events |
| ReportByPort.PortEntryRole | iptable.loggin.py:279 | with roles recorded by classification, an entry's role is its port's classification |
| ReportByPort.TopAttackersOrder | iptable.loggin.py:321-334 | kept attackers are by total descending, ties by ascending address |
| ReportByPort.TopAttackersCounts | iptable.loggin.py:312 | each kept attacker's total is its own positive number of rows |
| ReportByPort.TopAttackersDistinct | iptable.loggin.py:302 | no address is kept twice |
| ReportByPort.TopAttackersBusiest | iptable.loggin.py:321-334 | an address that attacked but was not kept has no more events than any kept attacker |
| ReportByDay.Tick | iptable.loggin.py:371-380 | one more event in the buckets |
| ReportByDay.Distribution | iptable.loggin.py:364-380 | the four buckets together hold every row |
| ReportByDay.DistributionBucket | iptable.loggin.py:371-380 | bucket `k` holds exactly the rows whose hour falls into quarter `k` |
| ReportByDay.BucketTick | iptable.loggin.py:373-380 | a row adds one to its own bucket and leaves the other three alone |
| ReportByDay.DistributionCounts | iptable.loggin.py:364-380 | the four buckets are the counts of rows per six-hour quarter |
| ReportByDay.DayAttackerEntry | iptable.loggin.py:382-387 | an attacker's events are its number of rows, and its pattern tally and its buckets each add up to them |
| ReportByDay.DayAttackerList | iptable.loggin.py:361-387 | the attackers follow the given addresses one for one, with their counts |
| ReportByDay.DayAttackersKeys | iptable.loggin.py:389-390 | the attackers follow the address ranking one for one |
| ReportByDay.DayPortEntry | iptable.loggin.py:354-398 | a day's port entry counts the port's events that day, its tally adds up to them, and it lists at most five attackers |
| ReportByDay.DayPortList | iptable.loggin.py:354-398 | the entries follow the given ports one for one, with their counts |
| ReportByDay.DayPortsKeys | iptable.loggin.py:400-401 | a day's ports follow the port ranking one for one |
| ReportByDay.DayEntry | iptable.loggin.py:350-407 | a date entry counts the events on that date |
| ReportByDay.ByDay | iptable.loggin.py:342-345 | the report is empty exactly when there are no events |
| ReportByDay.ByDayKeys | iptable.loggin.py:410 | entry `i` is the `i`-th date, latest first, with its count |
| ReportByDay.ByDayOrder | iptable.loggin.py:409-410 | dates strictly descend, so none is listed twice |
| ReportByDay.ByDayLabels | iptable.loggin.py:409-410 | for printable dates the `YYYY-MM-DD` labels strictly descend as text, as the sort on the `Date` column orders them |
| ReportByDay.ByDayCoverage | iptable.loggin.py:350 | a date has an entry exactly when some event happened on it |
| ReportByDay.ByDayTotal | iptable.loggin.py:405 | the day totals add up to the number of events |
| ReportByDay.DayPortsOrder | iptable.loggin.py:400-401 | a day's ports are by events descending, ties by ascending port |
| ReportByDay.DayPortsCoverage | iptable.loggin.py:354 | a port is listed for a day exactly when some event of that day hit it |
| ReportByDay.DayPortListTotal | iptable.loggin.py:395 | any listing of a day's ports, each once, accounts for every event of the day |
| ReportByDay.DayPortsTotal | iptable.loggin.py:395 | the port totals of a day add up to the day's events |
| ReportByDay.DayEntryPorts | iptable.loggin.py:350-406 | a date entry lists the ports of that date's events, at least one |
| ReportByDay.DayPortAttackers | iptable.loggin.py:389-397 | a port's attackers on a day carry their own event counts, most first and ties by ascending address; an address that attacked the port that day is listed, or else five are listed and none has fewer events |
| ReportByDay.TopDayAttackersComplete | iptable.loggin.py:396 | an attacker is kept by `[:n]`, or else `n` attackers are kept and none has fewer events |
| ReportByDay.TopDayAttackersOrder | iptable.loggin.py:389-397 | kept attackers are by events descending, ties by ascending address |
| ReportByDay.TopDayAttackersCounts | iptable.loggin.py:384 | each kept attacker's events are its own positive number of rows, and no address is kept twice |
| ReportByDay.TopDayAttackersBusiest | iptable.loggin.py:389-397 | an address that attacked but was not kept has no more events than any kept attacker |
| ReportByDay.DayAttackerQuarters | iptable.loggin.py:364-386 | an attacker's `time_distribution` counts its rows by the six-hour quarter of their hour |
| ReportByPeriod.PeriodEntry | iptable.loggin.py:429-446 | a period entry counts the period's events, and its pattern and port tallies hold the period's counts and each add up to its total |
| ReportByPeriod.ByPeriod | iptable.loggin.py:414-417 | the report is empty exactly when there are no events |
| ReportByPeriod.ByPeriodOrder | iptable.loggin.py:448-449 | periods strictly descend, so none is listed twice |
| ReportByPeriod.ByPeriodCoverage | iptable.loggin.py:425 | a period has an entry exactly when some event falls into it |
| ReportByPeriod.ByPeriodTotal | iptable.loggin.py:429 | the period totals add up to the number of events |
| ReportByPeriod.ByWeek | iptable.loggin.py:414-451 | the weekly report is empty exactly when there are no events, and its week starts strictly descend |
| ReportByPeriod.WeekEnd | iptable.loggin.py:426 | a week ends on the calendar date six days after its start |
| ReportByPeriod.WeekLabelOrder | iptable.loggin.py:427 | for distinct printable week starts, the `"<start> to <end>"` labels order like the starts |
| ReportByPeriod.ByWeekLabels | iptable.loggin.py:425-449 | the weekly labels strictly descend as text, as the sort on `week` orders them |
| ReportByPeriod.ByMonth | iptable.loggin.py:453-489 | the monthly report is empty exactly when there are no events, and its months strictly descend |
| ReportByPeriod.ByMonthLabels | iptable.loggin.py:486-487 | for valid timestamps the `YYYY-MM` labels strictly descend as text |
| ReportByAttackType.TypeEntry | iptable.loggin.py:500-517 | a pattern entry counts the pattern's events; its role split holds each role's positive count, names every role that occurs once, lists the roles in the order they first show up among the pattern's events, and adds up to the total; `1 <= days <= total` |
| ReportByAttackType.ByAttackType | iptable.loggin.py:491-494 | the report is empty exactly when there are no events |
| ReportByAttackType.ByAttackTypeKeys | iptable.loggin.py:521 | entry `i` is the `i`-th pattern of the ranking |
| ReportByAttackType.ByAttackTypeCoverage | iptable.loggin.py:500 | a pattern has an entry exactly when some event has it |
| ReportByAttackType.ByAttackTypeDistinct | iptable.loggin.py:500 | no pattern has two entries |
| ReportByAttackType.ByAttackTypeOrder | iptable.loggin.py:520-521 | entries are by total descending, ties by ascending pattern |
| ReportByAttackType.ByAttackTypeTotal | iptable.loggin.py:497-501 | the pattern totals add up to the number of events |
| ReportByAttackType.TypeEntryDays | iptable.loggin.py:510 | `days_with_events` is the number of different dates among the pattern's events |

## Left out

- Config.ExpandPorts: reads ASCII text only. `int()` also accepts Unicode decimal digits and strips Unicode whitespace around them. The port settings are ASCII `.env` values, and modelling Unicode digit and space tables would dwarf the rest.
- Extract.ExtractLine: the regular-expression classes `\s`, `\S`, `\d` and `\w` and `str.strip()` are ASCII only, while Python 3 applies them to all of Unicode. For example, a no-break space ends an `SRC=` value in Python but not in the model, and Arabic-Indic digits after `DPT=` match in Python but not in the model. Kernel log lines are ASCII.
- Tally.Breakdown: `value_counts()` dictionaries are ordered by descending count in the program (lines 253, 298, 313, 358, 385, 432, 436, 470 and 474), but the model lists the bins by ascending key. Which keys appear and their counts are modelled; the JSON key order and pandas' order among equal counts are not.
- ReportByPeriod.PeriodEntry: the percentage dictionaries (lines 433, 437, 471 and 475) are left out. They are floating-point `round(v / total * 100, 1)` values derived from the counts the entry keeps.
- ReportByAttackType.TypeEntry: `percentage_of_total` (line 515) is left out for the same reason.
- ReportByIp.DayActivity: `First_Attack` and `Last_Attack` are `strftime("%H:%M:%S")` texts (lines 220-221). The model keeps the timestamps themselves; `Calendar.TimeText` is their rendering.
- ReportByPort.PortEntry: the time-span `first` and `last` are `strftime` texts (lines 283-284), and so are each attacker's (lines 315-316). The model keeps the timestamps themselves.
- ReportByIp.IpEntryPorts: the port lists hold numbers, while the program writes them with `str(p)` (lines 263-264). The same holds for the `str(k)` port keys of the weekly and monthly reports (lines 437, 444, 475 and 482); `Text.NatStr` is that rendering.
- ReportByPeriod.ByWeek: the week an event falls into (`to_period('W')` at line 422) is the parameter `weekStart`, which gives the first day of the event's week. Nothing states that this day is a Monday; pandas' period arithmetic is not modelled.
- Extract.ParseLog: the log is given as its sequence of lines, each with its clock year. Opening the file (line 148), decode errors raised while reading it, and `pd.DataFrame` construction are I/O or library code.
- Config.ReadDigits: reads a digit string of any length. Python 3.11 and later (and the 3.7–3.10 security releases) make `int()` raise `ValueError` on a decimal string of more than 4300 digits, a limit that `sys.set_int_max_str_digits` and `PYTHONINTMAXSTRDIGITS` can change or switch off. The limit belongs to the interpreter's configuration, not to the program, so the model has none.
- Config.ParseIntStr: holds for every integer only where no digit limit is set. Under the default limit, `str()` and `int()` of an integer from 10^4300 on raise `ValueError`.
- Config.ParseInt: reads ASCII text of any length. `int()` also strips Unicode whitespace, reads Unicode decimal digits, and under the default limit rejects literals of more than 4300 digits.
- Config.ParseIntAccepts: the same two differences apply: ASCII whitespace and digits only, and no digit limit.
- Config.ParseIntLiteral: holds where no digit limit is set, for ASCII literals.
- Config.ParseIntPadded: holds where no digit limit is set, for ASCII whitespace.
- Config.ExpandPorts: a part with more than 4300 digits makes `int()` raise at line 125 or 128 under the default limit, and the model expands it instead.
- Text.ParseNatStr: reads a numeral of any length, while `int()` raises beyond the digit limit.
- Extract.ReadTokens: under the default digit limit, a `DPT=` or `LEN=` value of more than 4300 digits makes `int()` at line 175 or 189 raise. Both calls are outside the `try` at lines 158-166, so the whole run of `parse_log` stops with that exception. The model keeps the line as an event instead. Aborting a run on an exception is outside a per-line model.
- Extract.ExtractLine: the same holds per line. A line with an over-long `DPT=` or `LEN=` value is kept in the model, while the program stops.
- Extract.ParseStamp: the year is a parameter in place of `datetime.now().year` (line 160), which depends on the clock. `Extract.LogLine` pairs every line with the year the clock shows when the line is reached, so nothing assumes one year for the whole run.
- ReportByIp.Statistics: the statistics are a map, so the insertion order of `Total_Events` before the pattern counts is not kept.
- Loading `.env` with `load_dotenv` and `os.getenv` (lines 98-117) is left out; the signature table and the two port settings are parameters. `Config.DefaultSignatures` is the built-in table of lines 83-96.
- The menus, `input`/`print`, argument parsing, the root check, the rsyslog installer, group handling and JSON file writing are user interface or operating-system plumbing.
- The in-place `Week` and `Month` columns added to the data frame (lines 422 and 461) are a pandas side effect with no meaning in any report.
