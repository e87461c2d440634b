/**
 * The analyser's configuration: the ordered table of attack signatures and
 * the two destination-port lists, written in `.env` as comma-separated
 * singles and `a:b` inclusive ranges, together with the port classifier.
 */
module Config {
  import opened Wrappers
  import opened Text

  /** The role a destination port plays; every event carries exactly one. */
  datatype PortRole = GameServer | SourceTV | Other

  /** The signature table: (attack name, log-prefix marker) pairs in declaration order. */
  type SignatureTable = seq<(string, string)>

  /** Everything the extractor needs besides the log itself. */
  datatype Settings = Settings(signatures: SignatureTable, gamePorts: seq<int>, tvPorts: seq<int>)

  /** The built-in signature table, in its declared order. */
  const DefaultSignatures: SignatureTable := [
    ("INVALID_SIZE", "INVALID_SIZE: "),
    ("MALFORMED", "MALFORMED: "),
    ("A2S_INFO_FLOOD", "A2S_INFO_FLOOD: "),
    ("A2S_PLAYERS_FLOOD", "A2S_PLAYERS_FLOOD: "),
    ("A2S_RULES_FLOOD", "A2S_RULES_FLOOD: "),
    ("STEAM_GROUP_FLOOD", "STEAM_GROUP_FLOOD: "),
    ("L4D2_CONNECT_FLOOD", "L4D2_CONNECT_FLOOD: "),
    ("L4D2_RESERVE_FLOOD", "L4D2_RESERVE_FLOOD: "),
    ("UDP_NEW_LIMIT", "UDP_NEW_LIMIT: "),
    ("UDP_EST_LIMIT", "UDP_EST_LIMIT: "),
    ("TCP_RCON_BLOCK", "TCP_RCON_BLOCK: "),
    ("ICMP_FLOOD", "ICMP_FLOOD: ")
  ]

  /** The game-server list is consulted first, so a port in both lists is a game-server port. */
  function ClassifyPort(port: int, game: seq<int>, tv: seq<int>): (r: PortRole)
    ensures r == GameServer <==> port in game
    ensures r == SourceTV <==> port !in game && port in tv
    ensures r == Other <==> port !in game && port !in tv
  {
    if port in game then GameServer else if port in tv then SourceTV else Other
  }

  // ---- expand_ports ----

  /** The whitespace `int()` skips around an ASCII literal: the space and `\t` to `\r`. */
  predicate IsIntSpace(c: char) { c == ' ' || '\t' <= c <= '\r' }

  /** Digits with single underscores between them, as `int()` accepts in base 10. */
  predicate DigitGroups(s: string) {
    && |s| > 0 && IsDigit(s[0]) && IsDigit(s[|s| - 1])
    && (forall k :: 0 <= k < |s| ==> IsDigit(s[k]) || s[k] == '_')
    && (forall k :: 0 < k < |s| ==> SingleUnderscoreAt(s, k))
  }

  /** No underscore at `k` directly follows another. */
  predicate SingleUnderscoreAt(s: string, k: int)
    requires 0 < k < |s|
  {
    s[k] == '_' ==> s[k - 1] != '_'
  }

  /** The digits of `s` with the underscores dropped. */
  function Digits(s: string): (r: string)
    ensures (forall k :: 0 <= k < |s| ==> IsDigit(s[k]) || s[k] == '_') ==> AllDigits(r)
    ensures AllDigits(s) ==> r == s
    ensures |s| > 0 && IsDigit(s[0]) ==> |r| > 0
  {
    if |s| == 0 then [] else (if s[0] == '_' then [] else [s[0]]) + Digits(s[1..])
  }

  /** The value of an unsigned literal, when it is one. */
  function ReadDigits(s: string): (r: Option<nat>)
    ensures r.Some? <==> DigitGroups(s)
    ensures |s| > 0 && AllDigits(s) ==> r == Some(ParseNat(s))
  {
    if DigitGroups(s) then
      Some(ParseNat(Digits(s)))
    else
      None
  }

  /** A literal with its surrounding whitespace removed: one optional sign, then the digits. */
  function SignedValue(t: string): Option<int> {
    var negative := |t| > 0 && t[0] == '-';
    var body := if |t| > 0 && (t[0] == '-' || t[0] == '+') then t[1..] else t;
    match ReadDigits(body)
    case Some(n) => Some(if negative then -(n as int) else n)
    case None => None
  }

  /**
   * Python's `int(s)` on an ASCII decimal literal: surrounding whitespace is
   * ignored, one optional sign, then digits in groups joined by single
   * underscores.
   */
  function ParseInt(s: string): (r: Option<int>)
    ensures r.Some? <==> IntLiteral(StripBy(s, IsIntSpace))
    ensures r.Some? ==> |StripBy(s, IsIntSpace)| > 0
  {
    SignedValue(StripBy(s, IsIntSpace))
  }

  /** The shape `int()` accepts once the whitespace is stripped: an optional sign, then digit groups. */
  predicate IntLiteral(t: string) {
    || DigitGroups(t)
    || (|t| > 0 && (t[0] == '+' || t[0] == '-') && DigitGroups(t[1..]))
  }

  /** `int(s)` succeeds exactly when `s` is a literal with nothing but whitespace around it. */
  lemma ParseIntAccepts(s: string)
    ensures ParseInt(s).Some? <==> exists t, i :: SurroundedBy(s, t, i, IsIntSpace) && IntLiteral(t)
  {
    if ParseInt(s).Some? {
      AcceptedIsPadded(s);
    }
    if t, i :| SurroundedBy(s, t, i, IsIntSpace) && IntLiteral(t) {
      PaddedIsAccepted(s, t, i);
    }
  }

  /** What `int()` accepts is a literal with whitespace around it. */
  lemma AcceptedIsPadded(s: string)
    requires IntLiteral(StripBy(s, IsIntSpace))
    ensures exists t, i :: SurroundedBy(s, t, i, IsIntSpace) && IntLiteral(t)
  {
    var r := StripBy(s, IsIntSpace);
    StripRemoves(s, IsIntSpace);
    var i :| SurroundedBy(s, r, i, IsIntSpace);
  }

  /** Stripping a whitespace-padded literal leaves exactly the literal. */
  lemma PaddedIsAccepted(s: string, t: string, i: int)
    requires SurroundedBy(s, t, i, IsIntSpace) && IntLiteral(t)
    ensures StripBy(s, IsIntSpace) == t
  {
    var w1, w2 := s[..i], s[i + |t|..];
    assert s == w1 + t + w2;
    IntLiteralEnds(t);
    StripPadded(w1, t, w2, IsIntSpace);
  }

  /** A literal starts and ends outside the whitespace class. */
  lemma IntLiteralEnds(t: string)
    requires IntLiteral(t)
    ensures |t| > 0 && !IsIntSpace(t[0]) && !IsIntSpace(t[|t| - 1])
  {
    if !DigitGroups(t) {
      assert t[|t| - 1] == t[1..][|t| - 2];
    }
  }

  /**
   * A literal padded with whitespace, with one optional sign and any digit
   * groups, reads as the signed value of its digits.
   */
  lemma ParseIntLiteral(w1: string, sign: string, d: string, w2: string)
    requires forall k :: 0 <= k < |w1| ==> IsIntSpace(w1[k])
    requires forall k :: 0 <= k < |w2| ==> IsIntSpace(w2[k])
    requires sign == "" || sign == "+" || sign == "-"
    requires DigitGroups(d)
    ensures var n: int := ParseNat(Digits(d));
      ParseInt(w1 + sign + d + w2) == Some(if sign == "-" then -n else n)
  {
    var t := sign + d;
    assert w1 + sign + d + w2 == w1 + t + w2;
    LiteralEnds(sign, d);
    StripPadded(w1, t, w2, IsIntSpace);
    SignedLiteral(sign, d);
  }

  /** A sign followed by digit groups reads as the signed value of the digits. */
  lemma SignedLiteral(sign: string, d: string)
    requires sign == "" || sign == "+" || sign == "-"
    requires DigitGroups(d)
    ensures var n: int := ParseNat(Digits(d));
      SignedValue(sign + d) == Some(if sign == "-" then -n else n)
  {
    if sign == "" {
      assert sign + d == d;
      UnsignedLiteral(d);
    } else {
      var t := sign + d;
      assert t[0] == sign[0] && t[1..] == d;
      SignPrefixed(t);
    }
  }

  /** A sign followed by digit groups starts and ends outside the whitespace class. */
  lemma LiteralEnds(sign: string, d: string)
    requires sign == "" || sign == "+" || sign == "-"
    requires DigitGroups(d)
    ensures var t := sign + d; |t| > 0 && !IsIntSpace(t[0]) && !IsIntSpace(t[|t| - 1])
  {
    var t := sign + d;
    assert t[|t| - 1] == d[|d| - 1];
    assert t[0] == if sign == "" then d[0] else sign[0];
  }

  /** Digit groups with no sign read as their own value. */
  lemma UnsignedLiteral(d: string)
    requires DigitGroups(d)
    ensures var n: int := ParseNat(Digits(d)); SignedValue(d) == Some(n)
  {
    assert IsDigit(d[0]);
  }

  /** A sign in front of digit groups gives the value its sign. */
  lemma SignPrefixed(t: string)
    requires |t| > 0 && (t[0] == '+' || t[0] == '-') && DigitGroups(t[1..])
    ensures var n: int := ParseNat(Digits(t[1..])); SignedValue(t) == Some(if t[0] == '-' then -n else n)
  {
  }

  /** `str(n)` with a sign and whitespace around it reads back as the signed number. */
  lemma ParseIntPadded(w1: string, sign: string, n: nat, w2: string)
    requires forall k :: 0 <= k < |w1| ==> IsIntSpace(w1[k])
    requires forall k :: 0 <= k < |w2| ==> IsIntSpace(w2[k])
    requires sign == "" || sign == "+" || sign == "-"
    ensures var r := ParseInt(w1 + sign + NatStr(n) + w2);
      r.Some? && r.value == if sign == "-" then -(n as int) else n
  {
    NatStrGroups(n);
    ParseIntLiteral(w1, sign, NatStr(n), w2);
  }

  /** A numeral is a single digit group, read as its own value. */
  lemma NatStrGroups(n: nat)
    ensures DigitGroups(NatStr(n)) && ParseNat(Digits(NatStr(n))) == n
  {
    ParseNatStr(n);
  }

  /** One comma-separated part of a port list. */
  datatype PortSpec = Single(port: int) | Span(first: int, last: int)

  /** `range(a, b + 1)`: empty when `a > b`. */
  function Range(a: int, b: int): (r: seq<int>)
    ensures |r| == (if a <= b then b - a + 1 else 0)
    ensures forall i :: 0 <= i < |r| ==> r[i] == a + i
    decreases b - a
  {
    if a > b then [] else [a] + Range(a + 1, b)
  }

  function SpecPorts(sp: PortSpec): seq<int> {
    match sp
    case Single(n) => [n]
    case Span(a, b) => Range(a, b)
  }

  predicate Covers(sp: PortSpec, p: int) {
    match sp
    case Single(n) => p == n
    case Span(a, b) => a <= p <= b
  }

  /** Reads one part: `a:b` when it holds a colon (exactly one is allowed), else a single port. */
  function ParsePart(part: string): Option<PortSpec> {
    if ':' in part then
      var pieces := Split(part, ':');
      if |pieces| != 2 then None
      else
        match (ParseInt(pieces[0]), ParseInt(pieces[1]))
        case (Some(a), Some(b)) => Some(Span(a, b))
        case _ => None
    else
      match ParseInt(part)
      case Some(n) => Some(Single(n))
      case None => None
  }

  /**
   * The ports of `parts` in order; the first part that does not read as a
   * number or a range aborts with that part as the reason (`ValueError`).
   */
  function ExpandParts(parts: seq<string>): (r: Result<seq<int>>)
    ensures r.Ok? <==> AllSome(parts, ParsePart)
    ensures r.Ok? ==> r.value == Flatten(ReadAll(parts, ParsePart).value)
    ensures r.Err? ==> r.reason == parts[FirstNone(parts, ParsePart)]
  {
    match ReadAll(parts, ParsePart)
    case Some(specs) => Ok(Flatten(specs))
    case None => Err(parts[FirstNone(parts, ParsePart)])
  }

  /** `expand_ports`: the empty setting means no ports; otherwise every comma-separated part, in order. */
  function ExpandPorts(s: string): (r: Result<seq<int>>)
    ensures |s| == 0 ==> r == Ok([])
    ensures |s| > 0 ==> (r.Ok? <==> AllSome(Split(s, ','), ParsePart))
  {
    if |s| == 0 then Ok([]) else ExpandParts(Split(s, ','))
  }

  // ---- the written form of a port list ----

  function SpecText(sp: PortSpec): string {
    match sp
    case Single(n) => IntStr(n)
    case Span(a, b) => Join([IntStr(a), IntStr(b)], ':')
  }

  function SpecsText(specs: seq<PortSpec>): string {
    Join(SpecTexts(specs), ',')
  }

  function SpecTexts(specs: seq<PortSpec>): (r: seq<string>)
    ensures |r| == |specs|
    ensures forall k :: 0 <= k < |r| ==> r[k] == SpecText(specs[k])
  {
    if |specs| == 0 then [] else [SpecText(specs[0])] + SpecTexts(specs[1..])
  }

  /** The ports a list of parts denotes: each part's ports, in order. */
  function Flatten(specs: seq<PortSpec>): seq<int> {
    if |specs| == 0 then [] else SpecPorts(specs[0]) + Flatten(specs[1..])
  }

  lemma NoSeparators(i: int)
    ensures ',' !in IntStr(i) && ':' !in IntStr(i)
  {
    var s := IntStr(i);
    if i < 0 {
      assert s == "-" + NatStr(-i);
      assert forall k :: 1 <= k < |s| ==> IsDigit(s[k]);
    } else {
      assert AllDigits(s);
    }
  }

  lemma SpecTextNoComma(sp: PortSpec)
    ensures ',' !in SpecText(sp)
  {
    match sp
    case Single(n) => NoSeparators(n);
    case Span(a, b) =>
      NoSeparators(a);
      NoSeparators(b);
      assert [IntStr(a), IntStr(b)][1..] == [IntStr(b)];
      assert Join([IntStr(b)], ':') == IntStr(b);
      assert SpecText(sp) == IntStr(a) + [':'] + IntStr(b);
  }

  lemma ParseIntStr(i: int)
    ensures ParseInt(IntStr(i)) == Some(i)
  {
    IntStrStrips(i);
    SignedIntStr(i);
  }

  lemma IntStrStrips(i: int)
    ensures StripBy(IntStr(i), IsIntSpace) == IntStr(i)
  {
    var s := IntStr(i);
    assert !IsIntSpace(s[0]) && !IsIntSpace(s[|s| - 1]);
  }

  lemma SignedIntStr(i: int)
    ensures SignedValue(IntStr(i)) == Some(i)
  {
    var s := IntStr(i);
    var n: nat := if i < 0 then -i else i;
    var b := NatStr(n);
    ParseNatStr(n);
    assert ReadDigits(b) == Some(n);
    if i < 0 {
      assert s == "-" + b;
      assert s[1..] == b;
    } else {
      assert s == b;
    }
  }

  lemma ParseSpecText(sp: PortSpec)
    ensures ParsePart(SpecText(sp)) == Some(sp)
  {
    match sp
    case Single(n) =>
      NoSeparators(n);
      ParseIntStr(n);
    case Span(a, b) =>
      ParseSpanText(a, b);
  }

  lemma ParseSpanText(a: int, b: int)
    ensures ParsePart(SpecText(Span(a, b))) == Some(Span(a, b))
  {
    var ws := [IntStr(a), IntStr(b)];
    var t := SpecText(Span(a, b));
    assert t == Join(ws, ':');
    assert ':' in t && Split(t, ':') == ws by {
      NoSeparators(a);
      NoSeparators(b);
      assert Join(ws, ':')[|IntStr(a)|] == ':' by {
        assert ws[1..] == [IntStr(b)];
      }
      SplitJoin(ws, ':');
    }
    ParseSpanPieces(t, a, b);
  }

  /** A part that splits at its one colon into two written integers reads as that range. */
  lemma ParseSpanPieces(t: string, a: int, b: int)
    requires ':' in t && Split(t, ':') == [IntStr(a), IntStr(b)]
    ensures ParsePart(t) == Some(Span(a, b))
  {
    ParseIntStr(a);
    ParseIntStr(b);
  }

  lemma ExpandSpecTexts(specs: seq<PortSpec>)
    ensures ExpandParts(SpecTexts(specs)) == Ok(Flatten(specs))
  {
    var texts := SpecTexts(specs);
    forall k | 0 <= k < |texts|
      ensures ParsePart(texts[k]) == Some(specs[k])
    {
      ParseSpecText(specs[k]);
    }
    assert ReadAll(texts, ParsePart).value == specs;
  }

  /**
   * Reading back a written port list gives its ports in order: each single
   * port, then each range's ports, the empty list for the empty setting.
   */
  lemma ExpandPortsOfText(specs: seq<PortSpec>)
    ensures ExpandPorts(SpecsText(specs)) == Ok(Flatten(specs))
  {
    var texts := SpecTexts(specs);
    if |specs| == 0 {
    } else {
      forall k | 0 <= k < |texts|
        ensures ',' !in texts[k]
      {
        SpecTextNoComma(specs[k]);
      }
      SplitJoin(texts, ',');
      assert |SpecsText(specs)| > 0 by {
        assert |texts[0]| > 0;
        JoinNonEmpty(texts, ',');
      }
      ExpandSpecTexts(specs);
    }
  }

  lemma JoinNonEmpty(ws: seq<string>, sep: char)
    requires |ws| > 0 && |ws[0]| > 0
    ensures |Join(ws, sep)| > 0
  {
  }

  /** A port belongs to the expanded list exactly when one of the parts covers it. */
  lemma {:induction false} FlattenCovers(specs: seq<PortSpec>, p: int)
    ensures p in Flatten(specs) <==> exists k :: 0 <= k < |specs| && Covers(specs[k], p)
  {
    if |specs| > 0 {
      FlattenCovers(specs[1..], p);
      assert forall k :: 1 <= k < |specs| ==> specs[k] == specs[1..][k - 1];
      var sp := specs[0];
      if sp.Span? {
        var r := Range(sp.first, sp.last);
        assert p in r <==> sp.first <= p <= sp.last by {
          if sp.first <= p <= sp.last {
            assert r[p - sp.first] == p;
          }
        }
      }
      if exists k :: 1 <= k < |specs| && Covers(specs[k], p) {
        var k :| 1 <= k < |specs| && Covers(specs[k], p);
        assert Covers(specs[1..][k - 1], p);
      }
    }
  }
}
