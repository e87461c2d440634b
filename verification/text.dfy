/**
 * Character classes, decimal numerals and the few string operations the log
 * analyser relies on: maximal runs (what a greedy regular-expression atom
 * consumes), substring search (`in`), `str.strip`, `str.split` and `str.join`.
 *
 * Character classes are the ASCII parts of Python's `\d`, `\s` and `\w`.
 */
module Text {

  predicate IsDigit(c: char) { '0' <= c <= '9' }

  /** Python's `\s` and `str.isspace` restricted to the first 128 code points. */
  predicate IsSpace(c: char) {
    c == ' ' || c == '\t' || c == '\n' || c == '\r' || c == '\U{B}' || c == '\U{C}'
    || ('\U{1C}' <= c <= '\U{1F}')
  }

  /** The regular-expression class `\S`. */
  predicate NotSpace(c: char) { !IsSpace(c) }

  /** The regular-expression class `\w` restricted to ASCII. */
  predicate IsWordChar(c: char) {
    ('a' <= c <= 'z') || ('A' <= c <= 'Z') || IsDigit(c) || c == '_'
  }

  predicate AllDigits(s: string) {
    forall k :: 0 <= k < |s| ==> IsDigit(s[k])
  }

  function DigitValue(c: char): (d: nat)
    requires IsDigit(c)
    ensures d < 10
  {
    c as int - '0' as int
  }

  function DigitChar(d: nat): (c: char)
    requires d < 10
    ensures IsDigit(c) && DigitValue(c) == d
  {
    ('0' as int + d) as char
  }

  /** The value of a string of decimal digits, as Python's `int` computes it (leading zeros allowed). */
  function ParseNat(s: string): nat
    requires AllDigits(s)
  {
    if |s| == 0 then 0 else 10 * ParseNat(s[..|s| - 1]) + DigitValue(s[|s| - 1])
  }

  /** The decimal numeral of `n` without leading zeros, as Python's `str` writes it. */
  function NatStr(n: nat): (r: string)
    ensures 1 <= |r| && AllDigits(r)
    ensures 1 < |r| ==> r[0] != '0'
  {
    if n < 10 then [DigitChar(n)] else NatStr(n / 10) + [DigitChar(n % 10)]
  }

  /** `str(i)` for a possibly negative integer. */
  function IntStr(i: int): (r: string)
    ensures 1 <= |r| && NotSpace(r[0]) && NotSpace(r[|r| - 1])
  {
    if i < 0 then "-" + NatStr(-i) else NatStr(i)
  }

  function Pow10(w: nat): (p: nat)
    ensures 1 <= p
  {
    if w == 0 then 1 else 10 * Pow10(w - 1)
  }

  /** `n` written with exactly `w` digits, zero-padded on the left (strftime's `%m`, `%d`, `%H`, ...). */
  function Padded(n: nat, w: nat): (r: string)
    ensures |r| == w && AllDigits(r)
  {
    if w == 0 then [] else Padded(n / 10, w - 1) + [DigitChar(n % 10)]
  }

  lemma {:induction false} ParseNatStr(n: nat)
    ensures ParseNat(NatStr(n)) == n
  {
    if n >= 10 {
      var s := NatStr(n);
      assert s[..|s| - 1] == NatStr(n / 10);
      ParseNatStr(n / 10);
    }
  }

  lemma {:induction false} ParsePadded(n: nat, w: nat)
    requires n < Pow10(w)
    ensures ParseNat(Padded(n, w)) == n
  {
    if w > 0 {
      var s := Padded(n, w);
      assert s[..|s| - 1] == Padded(n / 10, w - 1);
      assert n / 10 < Pow10(w - 1);
      ParsePadded(n / 10, w - 1);
    }
  }

  /**
   * The end of the maximal run of characters satisfying `p` that starts at `i`:
   * what a greedy `p+` or `p*` atom consumes.
   */
  function Run(s: string, i: nat, p: char -> bool): (r: nat)
    requires i <= |s|
    ensures i <= r <= |s|
    decreases |s| - i
  {
    if i == |s| || !p(s[i]) then i else Run(s, i + 1, p)
  }

  /** The run is made of characters satisfying `p` and is maximal. */
  lemma {:induction false} RunFacts(s: string, i: nat, p: char -> bool)
    requires i <= |s|
    ensures forall k :: i <= k < Run(s, i, p) ==> p(s[k])
    ensures Run(s, i, p) == |s| || !p(s[Run(s, i, p)])
    decreases |s| - i
  {
    if i < |s| && p(s[i]) {
      RunFacts(s, i + 1, p);
    }
  }

  /** The start of the maximal run of characters satisfying `p` that ends just before `j`. */
  function RunBack(s: string, j: nat, p: char -> bool): (r: nat)
    requires j <= |s|
    ensures r <= j
    ensures forall k :: r <= k < j ==> p(s[k])
    ensures r == 0 || !p(s[r - 1])
  {
    if j == 0 || !p(s[j - 1]) then j else RunBack(s, j - 1, p)
  }

  /** A run of `p` stops exactly where the characters satisfying `p` stop. */
  lemma {:induction false} RunStops(s: string, i: nat, j: nat, p: char -> bool)
    requires i <= j <= |s|
    requires forall k :: i <= k < j ==> p(s[k])
    requires j == |s| || !p(s[j])
    ensures Run(s, i, p) == j
    decreases j - i
  {
    if i < j {
      RunStops(s, i + 1, j, p);
    }
  }

  /** Splits `s` after the maximal run of `p` at its start: what a greedy `p*` consumes, and the rest. */
  function TakeRun(s: string, p: char -> bool): (r: (string, string))
    ensures forall k :: 0 <= k < |r.0| ==> p(r.0[k])
    ensures |r.1| == 0 || !p(r.1[0])
  {
    var n := Run(s, 0, p);
    RunFacts(s, 0, p);
    (s[..n], s[n..])
  }

  /** A text that is a run of `p` followed by something that does not continue it splits there. */
  lemma TakeRunOf(x: string, y: string, p: char -> bool)
    requires forall k :: 0 <= k < |x| ==> p(x[k])
    requires |y| == 0 || !p(y[0])
    ensures TakeRun(x + y, p) == (x, y)
  {
    var s := x + y;
    assert forall k :: 0 <= k < |x| ==> s[k] == x[k];
    assert |y| > 0 ==> s[|x|] == y[0];
    RunStops(s, 0, |x|, p);
    assert s[..|x|] == x && s[|x|..] == y;
  }

  predicate OccursAt(s: string, sub: string, i: int) {
    0 <= i && i + |sub| <= |s| && s[i..i + |sub|] == sub
  }

  /** Python's `sub in s`; the empty string occurs in every string. */
  predicate Contains(s: string, sub: string)
    ensures Contains(s, sub) <==> exists i :: OccursAt(s, sub, i)
  {
    if |sub| > |s| then
      assert forall i :: !OccursAt(s, sub, i);
      false
    else if s[..|sub|] == sub then
      assert OccursAt(s, sub, 0);
      true
    else
      OccursInTail(s, sub);
      Contains(s[1..], sub)
  }

  lemma TailSlice(s: string, j: nat, n: nat)
    requires 1 + j + n <= |s|
    ensures s[1..][j..j + n] == s[j + 1..j + 1 + n]
  {
    var a, b := s[1..][j..j + n], s[j + 1..j + 1 + n];
    assert |a| == |b|;
    forall k | 0 <= k < n
      ensures a[k] == b[k]
    {
      assert a[k] == s[1..][j + k] == s[j + 1 + k];
    }
  }

  lemma OccursInTail(s: string, sub: string)
    requires |s| >= 1 && !OccursAt(s, sub, 0)
    ensures forall i :: OccursAt(s, sub, i) ==> i >= 1 && OccursAt(s[1..], sub, i - 1)
    ensures forall j :: OccursAt(s[1..], sub, j) ==> OccursAt(s, sub, j + 1)
  {
    forall i | 1 <= i && i + |sub| <= |s|
      ensures OccursAt(s, sub, i) <==> OccursAt(s[1..], sub, i - 1)
    {
      TailSlice(s, i - 1, |sub|);
    }
    forall j | OccursAt(s[1..], sub, j)
      ensures OccursAt(s, sub, j + 1)
    {
      TailSlice(s, j, |sub|);
    }
  }

  /** `s` without its leading characters of class `p`. */
  function TrimLeft(s: string, p: char -> bool): (r: string)
    ensures |r| <= |s| && r == s[|s| - |r|..]
    ensures |r| == 0 || !p(r[0])
    ensures |s| > 0 && !p(s[0]) ==> r == s
  {
    if |s| > 0 && p(s[0]) then TrimLeft(s[1..], p) else s
  }

  /** `s` without its trailing characters of class `p`. */
  function TrimRight(s: string, p: char -> bool): (r: string)
    ensures |r| <= |s| && r == s[..|r|]
    ensures |r| == 0 || !p(r[|r| - 1])
    ensures |s| > 0 && !p(s[|s| - 1]) ==> r == s
  {
    if |s| > 0 && p(s[|s| - 1]) then TrimRight(s[..|s| - 1], p) else s
  }

  /** `s` without the characters of class `p` at either end. */
  function StripBy(s: string, p: char -> bool): (r: string)
    ensures |r| <= |s|
    ensures |r| == 0 || (!p(r[0]) && !p(r[|r| - 1]))
    ensures |s| > 0 && !p(s[0]) && !p(s[|s| - 1]) ==> r == s
  {
    TrimRight(TrimLeft(s, p), p)
  }

  /** Python's `str.strip()`. */
  function Strip(s: string): (r: string)
    ensures |r| <= |s|
    ensures |r| == 0 || (NotSpace(r[0]) && NotSpace(r[|r| - 1]))
    ensures |s| > 0 && NotSpace(s[0]) && NotSpace(s[|s| - 1]) ==> r == s
  {
    StripBy(s, IsSpace)
  }

  /** `s` is `t` placed at `i` with nothing but characters of class `p` around it. */
  predicate SurroundedBy(s: string, t: string, i: int, p: char -> bool) {
    0 <= i <= |s| - |t| && s[i..i + |t|] == t
    && (forall k :: 0 <= k < i ==> p(s[k]))
    && (forall k :: i + |t| <= k < |s| ==> p(s[k]))
  }

  /** What `StripBy` removes belongs to the class `p` only. */
  lemma {:induction false} StripRemoves(s: string, p: char -> bool)
    ensures exists i :: SurroundedBy(s, StripBy(s, p), i, p)
  {
    var l := TrimLeft(s, p);
    var i := |s| - |l|;
    TrimLeftRemoves(s, p);
    TrimRightRemoves(l, p);
    var r := StripBy(s, p);
    assert s[i..i + |r|] == l[..|r|];
    forall k | i + |r| <= k < |s|
      ensures p(s[k])
    {
      assert s[k] == l[k - i];
    }
    assert SurroundedBy(s, r, i, p);
  }

  lemma {:induction false} TrimLeftRemoves(s: string, p: char -> bool)
    ensures forall k :: 0 <= k < |s| - |TrimLeft(s, p)| ==> p(s[k])
  {
    if |s| > 0 && p(s[0]) {
      TrimLeftRemoves(s[1..], p);
    }
  }

  lemma {:induction false} TrimRightRemoves(s: string, p: char -> bool)
    ensures forall k :: |TrimRight(s, p)| <= k < |s| ==> p(s[k])
  {
    if |s| > 0 && p(s[|s| - 1]) {
      TrimRightRemoves(s[..|s| - 1], p);
    }
  }

  /** Padding of class `p` around a text that neither starts nor ends in `p` is exactly what `StripBy` removes. */
  lemma StripPadded(w1: string, t: string, w2: string, p: char -> bool)
    requires forall k :: 0 <= k < |w1| ==> p(w1[k])
    requires forall k :: 0 <= k < |w2| ==> p(w2[k])
    requires |t| > 0 && !p(t[0]) && !p(t[|t| - 1])
    ensures StripBy(w1 + t + w2, p) == t
  {
    assert w1 + t + w2 == w1 + (t + w2);
    assert (t + w2)[|t + w2| - 1] == (if |w2| == 0 then t[|t| - 1] else w2[|w2| - 1]);
    TrimLeftPadded(w1, t + w2, p);
    TrimRightPadded(t, w2, p);
  }

  lemma {:induction false} TrimLeftPadded(w: string, t: string, p: char -> bool)
    requires forall k :: 0 <= k < |w| ==> p(w[k])
    requires |t| > 0 && !p(t[0])
    ensures TrimLeft(w + t, p) == t
  {
    if |w| > 0 {
      assert (w + t)[1..] == w[1..] + t;
      TrimLeftPadded(w[1..], t, p);
    }
  }

  lemma {:induction false} TrimRightPadded(t: string, w: string, p: char -> bool)
    requires forall k :: 0 <= k < |w| ==> p(w[k])
    requires |t| > 0 && !p(t[|t| - 1])
    ensures TrimRight(t + w, p) == t
  {
    if |w| > 0 {
      assert (t + w)[..|t + w| - 1] == t + w[..|w| - 1];
      TrimRightPadded(t, w[..|w| - 1], p);
    }
  }

  /** The index of the first `c` in `s`, or `|s|` when there is none. */
  function IndexOf(s: string, c: char): (r: nat)
    ensures r <= |s|
    ensures forall k :: 0 <= k < r ==> s[k] != c
    ensures r < |s| ==> s[r] == c
  {
    if |s| == 0 || s[0] == c then 0 else 1 + IndexOf(s[1..], c)
  }

  /** `sep.join(ws)` for a one-character separator. */
  function Join(ws: seq<string>, sep: char): string
  {
    if |ws| == 0 then "" else if |ws| == 1 then ws[0] else ws[0] + [sep] + Join(ws[1..], sep)
  }

  /**
   * Python's `s.split(sep)` for a one-character separator: every occurrence
   * separates, empty pieces are kept, and `"".split(sep) == [""]`.
   */
  function Split(s: string, sep: char): (r: seq<string>)
    ensures |r| >= 1
    decreases |s|
  {
    var i := IndexOf(s, sep);
    if i == |s| then [s] else [s[..i]] + Split(s[i + 1..], sep)
  }

  /** The pieces hold no separator, and joining them gives back the text. */
  lemma {:induction false} SplitFacts(s: string, sep: char)
    ensures forall k :: 0 <= k < |Split(s, sep)| ==> sep !in Split(s, sep)[k]
    ensures Join(Split(s, sep), sep) == s
    decreases |s|
  {
    var i := IndexOf(s, sep);
    if i < |s| {
      SplitFacts(s[i + 1..], sep);
      var r := Split(s, sep);
      assert r[1..] == Split(s[i + 1..], sep);
      assert s == s[..i] + [sep] + s[i + 1..];
    }
  }

  /** Splitting undoes joining when no piece contains the separator. */
  lemma {:induction false} SplitJoin(ws: seq<string>, sep: char)
    requires |ws| >= 1
    requires forall k :: 0 <= k < |ws| ==> sep !in ws[k]
    ensures Split(Join(ws, sep), sep) == ws
  {
    if |ws| == 1 {
      assert IndexOf(ws[0], sep) == |ws[0]|;
    } else {
      var s := Join(ws, sep);
      var tail := Join(ws[1..], sep);
      assert s == ws[0] + [sep] + tail;
      assert IndexOf(s, sep) == |ws[0]| by {
        IndexOfPast(ws[0], sep, tail);
      }
      assert s[|ws[0]| + 1..] == tail;
      assert s[..|ws[0]|] == ws[0];
      SplitJoin(ws[1..], sep);
    }
  }

  lemma IndexOfPast(w: string, sep: char, tail: string)
    requires sep !in w
    ensures IndexOf(w + [sep] + tail, sep) == |w|
  {
    var s := w + [sep] + tail;
    assert s[|w|] == sep;
    assert forall k :: 0 <= k < |w| ==> s[k] == w[k];
  }
}
