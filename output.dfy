/** `write_output`: the password listing (one token per line, in rank order) and the
    stats file (the header `Password,Count`, then `token,count` per ranked entry). */
module Output {
  import opened Wrappers
  import opened Strings
  import opened Ranking

  /** The ASCII digit for `d`. */
  function Digit(d: nat): char
    requires d < 10
  {
    ('0' as int + d) as char
  }

  predicate IsDigit(c: char) {
    '0' <= c <= '9'
  }

  /** `usize`'s `Display`: decimal digits, no sign, no leading zero. */
  function Decimal(n: nat): (s: string)
    ensures |s| >= 1 && forall i :: 0 <= i < |s| ==> IsDigit(s[i])
    ensures s[0] == '0' <==> n == 0
    decreases n
  {
    if n < 10 then [Digit(n)] else Decimal(n / 10) + [Digit(n % 10)]
  }

  /** The value of a string of decimal digits. */
  function ParseDecimal(s: string): nat
    requires forall i :: 0 <= i < |s| ==> IsDigit(s[i])
  {
    if s == [] then 0 else ParseDecimal(s[..|s| - 1]) * 10 + DigitValue(s[|s| - 1])
  }

  /** The value of one decimal digit. */
  function DigitValue(c: char): nat
    requires IsDigit(c)
  {
    c as int - '0' as int
  }

  /** Reading a printed count back gives the count. */
  lemma {:induction false} DecimalRoundTrip(n: nat)
    ensures ParseDecimal(Decimal(n)) == n
    decreases n
  {
    if n >= 10 {
      DecimalRoundTrip(n / 10);
      var s := Decimal(n);
      assert s[..|s| - 1] == Decimal(n / 10);
    }
  }

  /** The stats file's header line. */
  const StatsHeader: string := "Password,Count"

  /** One stats line without its line end: the token, a comma, the decimal count. */
  function StatsLine(e: Entry): (line: string)
    ensures |line| > |e.0| && line[..|e.0|] == e.0 && LastIndexOf(line, ',') == Some(|e.0|)
  {
    var d := Decimal(e.1);
    var line := e.0 + "," + d;
    assert line[|e.0|] == ',';
    assert forall j :: |e.0| < j < |line| ==> line[j] == d[j - |e.0| - 1];
    assert LastIndexOf(line, ',').Some? && LastIndexOf(line, ',').value == |e.0|;
    line
  }

  /** Reads a stats line back: the token is everything before the last comma and
      the count is the decimal number after it. */
  function ParseStatsLine(line: string): Option<Entry> {
    match LastIndexOf(line, ',')
    case None => None
    case Some(i) =>
      var digits := line[i + 1..];
      if |digits| > 0 && forall k :: 0 <= k < |digits| ==> IsDigit(digits[k])
      then Some((line[..i], ParseDecimal(digits)))
      else None
  }

  /** Every stats line reads back as the entry it was written from, also when the
      token itself contains commas: the count holds none. */
  lemma StatsLineRoundTrip(e: Entry)
    ensures ParseStatsLine(StatsLine(e)) == Some(e)
  {
    var line := StatsLine(e);
    var d := Decimal(e.1);
    var comma := |e.0|;
    assert line[comma] == ',';
    assert forall j :: comma < j < |line| ==> line[j] == d[j - comma - 1];
    var r := LastIndexOf(line, ',');
    assert r.Some?;
    assert r.value == comma;
    assert line[..comma] == e.0;
    assert line[comma + 1..] == d;
    DecimalRoundTrip(e.1);
  }

  /** The header is not read as an entry. */
  lemma StatsHeaderIsNotAnEntry()
    ensures ParseStatsLine(StatsHeader) == None
  {
    var r := LastIndexOf(StatsHeader, ',');
    assert StatsHeader[8] == ',';
    assert r == Some(8);
    assert !IsDigit(StatsHeader[9..][0]);
  }

  /** The loop of `write_output`, with each file as the sequence of its lines: the
      listing holds the ranked tokens in order, the stats file the header followed by
      one `token,count` line per ranked entry. */
  method WriteOutput(ranked: seq<Entry>) returns (passwords: seq<string>, stats: seq<string>)
    ensures |passwords| == |ranked| && |stats| == |ranked| + 1
    ensures stats[0] == StatsHeader
    ensures forall i :: 0 <= i < |ranked| ==> passwords[i] == ranked[i].0 && stats[i + 1] == StatsLine(ranked[i])
    ensures forall i :: 0 <= i < |ranked| ==> ParseStatsLine(stats[i + 1]) == Some(ranked[i])
  {
    passwords := [];
    stats := [StatsHeader];
    for i := 0 to |ranked|
      invariant |passwords| == i && |stats| == i + 1
      invariant stats[0] == StatsHeader
      invariant forall k :: 0 <= k < i ==> passwords[k] == ranked[k].0 && stats[k + 1] == StatsLine(ranked[k])
    {
      passwords := passwords + [ranked[i].0];
      stats := stats + [StatsLine(ranked[i])];
    }
    forall i | 0 <= i < |ranked| ensures ParseStatsLine(stats[i + 1]) == Some(ranked[i]) {
      StatsLineRoundTrip(ranked[i]);
    }
  }
}
