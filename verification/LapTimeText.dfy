/**
 Lap-time strings of lib/f1_types/common.py: the printer MM:SS.mmm, the short form for times
 under a minute, and the parser.
 */
module LapTimeText {
  import opened Common

  datatype Error = ValueError

  function DigitChar(d: nat): (c: char)
    requires d < 10
    ensures IsDigit(c) && DigitValue(c) == d
  {
    '0' + d as char
  }

  predicate IsDigit(c: char) {
    '0' <= c <= '9'
  }

  function DigitValue(c: char): (d: nat)
    requires IsDigit(c)
    ensures d < 10
  {
    c as int - '0' as int
  }

  /** str(n). */
  function Decimal(n: nat): string {
    if n < 10 then [DigitChar(n)] else Decimal(n / 10) + [DigitChar(n % 10)]
  }

  function Zeros(k: nat): string {
    seq(k, i => '0')
  }

  /** f"{n:0w}": at least w characters, filled with zeros. */
  function Padded(n: nat, w: nat): (s: string)
    ensures |s| >= w
  {
    var s := Decimal(n);
    if |s| < w then Zeros(w - |s|) + s else s
  }

  /** int(s) for a string of digits; anything else is a ValueError here. */
  function ParseInt(s: string): Result<nat, Error> {
    if s == [] || !(forall i :: 0 <= i < |s| ==> IsDigit(s[i])) then Err(ValueError) else Ok(Value(s))
  }

  function Value(s: string): nat
    requires forall i :: 0 <= i < |s| ==> IsDigit(s[i])
  {
    if s == [] then 0 else 10 * Value(s[..|s| - 1]) + DigitValue(s[|s| - 1])
  }

  /** s.split(c). */
  function Split(s: string, c: char): (parts: seq<string>)
    ensures |parts| > 0
  {
    if s == [] then [[]]
    else
      var rest := Split(s[1..], c);
      if s[0] == c then [[]] + rest else [[s[0]] + rest[0]] + rest[1..]
  }

  /** millisecondsToMinutesSecondsMilliseconds. */
  function Print(ms: nat): string {
    var totalSeconds, millis := ms / 1000, ms % 1000;
    var minutes, seconds := totalSeconds / 60, totalSeconds % 60;
    Padded(minutes, 2) + ":" + Padded(seconds, 2) + "." + Padded(millis, 3)
  }

  /** getLapTimeStr: the minutes are left out when there are none. */
  function PrintShort(ms: nat): string {
    var totalSeconds, millis := ms / 1000, ms % 1000;
    var minutes, seconds := totalSeconds / 60, totalSeconds % 60;
    if minutes > 0 then Padded(minutes, 2) + ":" + Padded(seconds, 2) + "." + Padded(millis, 3)
    else Padded(seconds, 2) + "." + Padded(millis, 3)
  }

  /** timeStrToMilliseconds; unpacking into two names fails unless a split has exactly two parts. */
  function Parse(s: string): Result<nat, Error> {
    var parts := Split(s, ':');
    if |parts| != 2 then Err(ValueError)
    else
      var rest := Split(parts[1], '.');
      if |rest| != 2 then Err(ValueError)
      else
        match (ParseInt(rest[0]), ParseInt(rest[1]), ParseInt(parts[0]))
        case (Ok(seconds), Ok(millis), Ok(minutes)) => Ok(minutes * 60 * 1000 + seconds * 1000 + millis)
        case _ => Err(ValueError)
  }

  // ---------------------------------------------------------------------
  // Numbers
  // ---------------------------------------------------------------------

  ghost predicate AllDigits(s: string) {
    forall i :: 0 <= i < |s| ==> IsDigit(s[i])
  }

  lemma {:induction false} DecimalParses(n: nat)
    ensures Decimal(n) != [] && AllDigits(Decimal(n)) && Value(Decimal(n)) == n
  {
    if n < 10 {
    } else {
      DecimalParses(n / 10);
      var s := Decimal(n);
      assert s[..|s| - 1] == Decimal(n / 10);
    }
  }

  lemma {:induction false} LeadingZeros(k: nat, s: string)
    requires AllDigits(s)
    ensures AllDigits(Zeros(k) + s) && Value(Zeros(k) + s) == Value(s)
    decreases |s|, k
  {
    if s == [] {
      if k > 0 {
        LeadingZeros(k - 1, []);
        assert (Zeros(k) + s)[..k - 1] == Zeros(k - 1) + [];
      }
    } else {
      LeadingZeros(k, s[..|s| - 1]);
      var t := Zeros(k) + s;
      assert t[..|t| - 1] == Zeros(k) + s[..|s| - 1];
    }
  }

  /** Whatever the width, the padded number parses back. */
  lemma PaddedParses(n: nat, w: nat)
    ensures AllDigits(Padded(n, w)) && Padded(n, w) != []
    ensures ParseInt(Padded(n, w)) == Ok(n)
  {
    DecimalParses(n);
    if |Decimal(n)| < w {
      LeadingZeros(w - |Decimal(n)|, Decimal(n));
    }
  }

  // ---------------------------------------------------------------------
  // Splitting
  // ---------------------------------------------------------------------

  ghost predicate Lacks(s: string, c: char) {
    forall i :: 0 <= i < |s| ==> s[i] != c
  }

  lemma {:induction false} SplitWithout(s: string, c: char)
    requires Lacks(s, c)
    ensures Split(s, c) == [s]
  {
    if s == [] {
    } else {
      SplitWithout(s[1..], c);
      assert [s[0]] + s[1..] == s;
    }
  }

  lemma {:induction false} SplitOnce(a: string, c: char, b: string)
    requires Lacks(a, c) && Lacks(b, c)
    ensures Split(a + [c] + b, c) == [a, b]
  {
    var s := a + [c] + b;
    if a == [] {
      assert s[1..] == b;
      SplitWithout(b, c);
    } else {
      assert s[1..] == a[1..] + [c] + b;
      SplitOnce(a[1..], c, b);
      assert [a[0]] + a[1..] == a;
    }
  }

  // ---------------------------------------------------------------------
  // Round trips
  // ---------------------------------------------------------------------

  lemma ParseJoined(minutes: nat, seconds: nat, millis: nat)
    ensures Parse(Padded(minutes, 2) + ":" + Padded(seconds, 2) + "." + Padded(millis, 3))
            == Ok(minutes * 60 * 1000 + seconds * 1000 + millis)
  {
    var m, s, l := Padded(minutes, 2), Padded(seconds, 2), Padded(millis, 3);
    PaddedParses(minutes, 2);
    PaddedParses(seconds, 2);
    PaddedParses(millis, 3);
    hide Padded, ParseInt, Split;
    var tail := s + "." + l;
    assert m + ":" + s + "." + l == m + [':'] + tail;
    assert Lacks(m, ':') && Lacks(tail, ':');
    SplitOnce(m, ':', tail);
    assert Lacks(s, '.') && Lacks(l, '.');
    SplitOnce(s, '.', l);
  }

  /** The parser undoes the printer for every millisecond count, however long the minutes are. */
  lemma ParsePrint(ms: nat)
    ensures Parse(Print(ms)) == Ok(ms)
  {
    var totalSeconds := ms / 1000;
    ParseJoined(totalSeconds / 60, totalSeconds % 60, ms % 1000);
    assert totalSeconds == totalSeconds / 60 * 60 + totalSeconds % 60;
  }

  lemma TwoDigits(n: nat)
    requires n < 100
    ensures |Padded(n, 2)| == 2
  {
    assert |Decimal(n)| == if n < 10 then 1 else 2;
  }

  lemma ThreeDigits(n: nat)
    requires n < 1000
    ensures |Padded(n, 3)| == 3
  {
    if n >= 10 {
      assert |Decimal(n / 10)| == if n < 100 then 1 else 2;
    }
  }

  /** The layout MM:SS.mmm: two second digits below 60, three millisecond digits, at least two minute digits. */
  lemma PrintLayout(ms: nat)
    ensures var s := Print(ms);
            && |s| >= 9 && s[|s| - 7] == ':' && s[|s| - 4] == '.'
            && AllDigits(s[..|s| - 7]) && AllDigits(s[|s| - 6..|s| - 4]) && AllDigits(s[|s| - 3..])
            && Value(s[|s| - 6..|s| - 4]) == ms / 1000 % 60 && Value(s[|s| - 3..]) == ms % 1000
            && Value(s[..|s| - 7]) == ms / 60000
  {
    var minutes, seconds, millis := ms / 1000 / 60, ms / 1000 % 60, ms % 1000;
    var m, c, l := Padded(minutes, 2), Padded(seconds, 2), Padded(millis, 3);
    PaddedParses(minutes, 2);
    PaddedParses(seconds, 2);
    PaddedParses(millis, 3);
    TwoDigits(seconds);
    ThreeDigits(millis);
    assert ms / 1000 / 60 == ms / 60000;
    assert Print(ms) == m + ":" + c + "." + l;
    JoinedParts(m, c, l);
  }

  lemma JoinedParts(m: string, c: string, l: string)
    requires |c| == 2 && |l| == 3
    ensures var s := m + ":" + c + "." + l;
            && |s| == |m| + 7 && s[|m|] == ':' && s[|m| + 3] == '.'
            && s[..|m|] == m && s[|m| + 1..|m| + 3] == c && s[|m| + 4..] == l
  {}

  /** So two different times never print the same. */
  lemma PrintInjective(a: nat, b: nat)
    requires Print(a) == Print(b)
    ensures a == b
  {
    ParsePrint(a);
    ParsePrint(b);
  }

  /** The short form can be parsed exactly when there is a minute in it. */
  lemma ShortFormParsesIffMinute(ms: nat)
    ensures Parse(PrintShort(ms)) == (if ms >= 60000 then Ok(ms) else Err(ValueError))
  {
    ParsePrint(ms);
    if ms < 60000 {
      var s, l := Padded(ms / 1000 % 60, 2), Padded(ms % 1000, 3);
      PaddedParses(ms / 1000 % 60, 2);
      PaddedParses(ms % 1000, 3);
      assert Lacks(s + "." + l, ':');
      SplitWithout(s + "." + l, ':');
    }
  }

  /** The short form is the long one from a minute on, and SS.mmm below. */
  lemma ShortLayout(ms: nat)
    ensures ms >= 60000 ==> PrintShort(ms) == Print(ms)
    ensures ms < 60000 ==>
              var s := PrintShort(ms);
              && |s| == 6 && s[2] == '.' && AllDigits(s[..2]) && AllDigits(s[3..])
              && Value(s[..2]) == ms / 1000 && Value(s[3..]) == ms % 1000
  {
    if ms < 60000 {
      assert ms / 1000 / 60 == 0 && ms / 1000 % 60 == ms / 1000;
      var c, l := Padded(ms / 1000, 2), Padded(ms % 1000, 3);
      PaddedParses(ms / 1000, 2);
      PaddedParses(ms % 1000, 3);
      TwoDigits(ms / 1000);
      ThreeDigits(ms % 1000);
      var s := c + "." + l;
      assert PrintShort(ms) == s;
      hide Padded, Value, PrintShort;
      assert s[..2] == c && s[3..] == l;
    }
  }

  // ---------------------------------------------------------------------
  // Exactly what parses
  // ---------------------------------------------------------------------

  ghost predicate IsNumber(s: string) {
    s != [] && AllDigits(s)
  }

  /** Three numbers joined by a colon and a dot, of any lengths, and the milliseconds they mean. */
  ghost predicate IsTime(t: string, v: nat) {
    exists m: string, s: string, l: string :: IsTimeOf(t, v, m, s, l)
  }

  ghost predicate IsTimeOf(t: string, v: nat, m: string, s: string, l: string) {
    && IsNumber(m) && IsNumber(s) && IsNumber(l)
    && t == m + ":" + s + "." + l
    && v == Value(m) * 60000 + Value(s) * 1000 + Value(l)
  }

  lemma {:induction false} SplitJoins(s: string, c: char)
    ensures |Split(s, c)| == 1 ==> Split(s, c)[0] == s
    ensures |Split(s, c)| == 2 ==> s == Split(s, c)[0] + [c] + Split(s, c)[1]
  {
    if s == [] {
    } else {
      SplitJoins(s[1..], c);
      assert s == [s[0]] + s[1..];
    }
  }

  lemma TimeParses(t: string, v: nat, m: string, s: string, l: string)
    requires IsTimeOf(t, v, m, s, l)
    ensures Parse(t) == Ok(v)
  {
    hide Split, Value;
    var tail := s + "." + l;
    assert t == m + [':'] + tail;
    assert Lacks(m, ':') && Lacks(tail, ':');
    SplitOnce(m, ':', tail);
    assert Lacks(s, '.') && Lacks(l, '.');
    SplitOnce(s, '.', l);
  }

  /** A string parses to v exactly if it is such a time and v its meaning; any other is an error. */
  lemma ParseIff(t: string, v: nat)
    ensures Parse(t) == Ok(v) <==> IsTime(t, v)
  {
    if m: string, s: string, l: string :| IsTimeOf(t, v, m, s, l) {
      TimeParses(t, v, m, s, l);
    }
    if Parse(t) == Ok(v) {
      hide Split, Value;
      var parts := Split(t, ':');
      SplitJoins(t, ':');
      var rest := Split(parts[1], '.');
      SplitJoins(parts[1], '.');
      assert t == parts[0] + ":" + rest[0] + "." + rest[1];
      assert IsTimeOf(t, v, parts[0], rest[0], rest[1]);
    }
  }
}
