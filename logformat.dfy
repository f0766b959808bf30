/** Rendering the tally as log lines, one per keyword, and reading a line
    back, which shows that each line determines its keyword and count. */
module LogFormat {

  import opened Sequences
  import opened Wrappers
  import opened Tallies

  /** The operation words the two passes of the window application write. */
  const CopyLabel: string := "копiювання"
  const MoveLabel: string := "перемiщення"

  const Prefix: string := "В папку \""
  const Suffix: string := " файлов\n"

  predicate IsDigit(c: char)
  {
    '0' <= c <= '9'
  }

  predicate AllDigits(s: string)
  {
    forall i :: 0 <= i < |s| ==> IsDigit(s[i])
  }

  function Digit(d: nat): (c: char)
    requires d < 10
    ensures IsDigit(c)
  {
    ('0' as int + d) as char
  }

  function DigitValue(c: char): (d: nat)
    requires IsDigit(c)
    ensures d < 10
  {
    c as int - '0' as int
  }

  /** Python's `str(n)` for a non-negative integer: decimal digits without
      leading zeros. */
  function DecimalString(n: nat): (s: string)
    ensures |s| >= 1 && AllDigits(s)
    ensures |s| > 1 ==> s[0] != '0'
    decreases n
  {
    if n < 10 then [Digit(n)] else DecimalString(n / 10) + [Digit(n % 10)]
  }

  function ParseDecimal(s: string): nat
    requires AllDigits(s)
    decreases |s|
  {
    if s == [] then 0 else ParseDecimal(Init(s)) * 10 + DigitValue(Last(s))
  }

  lemma {:induction false} DecimalRoundTrip(n: nat)
    ensures ParseDecimal(DecimalString(n)) == n
    decreases n
  {
    if n >= 10 {
      DecimalRoundTrip(n / 10);
      assert Init(DecimalString(n)) == DecimalString(n / 10);
    }
  }

  /** One log line, newline included:
      `В папку "<keyword>" <operation> <count> файлов`. */
  function LogLine(keyword: string, operation: string, count: nat): (line: string)
    ensures |line| > |Prefix| + |keyword| + |operation| + |Suffix|
    ensures line[..|Prefix| + |keyword|] == Prefix + keyword
    ensures line[|line| - |Suffix|..] == Suffix && IsDigit(line[|line| - |Suffix| - 1])
  {
    Prefix + keyword + "\" " + operation + " " + DecimalString(count) + Suffix
  }

  /** One line per tally entry, in the tally's key order. */
  function LogLines(t: Tally, operation: string): (lines: seq<string>)
    requires Valid(t)
    ensures |lines| == |t.keys|
  {
    seq(|t.keys|, i requires 0 <= i < |t.keys| => LogLine(t.keys[i], operation, t.counts[t.keys[i]]))
  }

  /** Length of the longest run of digits at the end of `s`. */
  function TrailingDigits(s: string): (d: nat)
    ensures d <= |s| && AllDigits(s[|s| - d..])
    decreases |s|
  {
    if s == [] || !IsDigit(Last(s)) then 0
    else
      var d := TrailingDigits(Init(s));
      assert s[|s| - (d + 1)..] == Init(s)[|Init(s)| - d..] + [Last(s)];
      d + 1
  }

  lemma {:induction false} TrailingDigitsAfter(x: string, y: string)
    requires x != [] && !IsDigit(Last(x)) && AllDigits(y)
    ensures TrailingDigits(x + y) == |y|
    decreases |y|
  {
    if y == [] {
      assert x + y == x;
    } else {
      assert Init(x + y) == x + Init(y);
      TrailingDigitsAfter(x, Init(y));
    }
  }

  /** Reads a log line back into its keyword and count, from the right, so
      that a keyword holding quotes or spaces is still recovered. */
  function ParseLine(line: string, operation: string): Option<(string, nat)>
  {
    if |line| < |Prefix| + |Suffix| || line[..|Prefix|] != Prefix
      || line[|line| - |Suffix|..] != Suffix then None
    else ParseBody(line[|Prefix|..|line| - |Suffix|], operation)
  }

  /** The part between the fixed prefix and suffix:
      `<keyword>" <operation> <digits>`. */
  function ParseBody(body: string, operation: string): Option<(string, nat)>
  {
    var d := TrailingDigits(body);
    var head := body[..|body| - d];
    var mid := "\" " + operation + " ";
    if d == 0 || |head| < |mid| || head[|head| - |mid|..] != mid then None
    else Some((head[..|head| - |mid|], ParseDecimal(body[|body| - d..])))
  }

  lemma Framed(a: string, b: string, c: string)
    ensures (a + b + c)[..|a|] == a
    ensures (a + b + c)[|a + b + c| - |c|..] == c
    ensures (a + b + c)[|a|..|a + b + c| - |c|] == b
  {
  }

  lemma ParseBodyRoundTrip(keyword: string, operation: string, count: nat)
    ensures ParseBody(keyword + ("\" " + operation + " ") + DecimalString(count), operation)
      == Some((keyword, count))
  {
    var digits := DecimalString(count);
    var mid := "\" " + operation + " ";
    var head := keyword + mid;
    var body := head + digits;
    assert Last(head) == ' ';
    TrailingDigitsAfter(head, digits);
    assert body[..|body| - |digits|] == head;
    Framed(keyword, mid, []);
    assert head + [] == head;
    assert body[|body| - |digits|..] == digits;
    DecimalRoundTrip(count);
  }

  /** A log line determines the keyword and the count it was written for. */
  lemma LogLineRoundTrip(keyword: string, operation: string, count: nat)
    ensures ParseLine(LogLine(keyword, operation, count), operation) == Some((keyword, count))
  {
    var body := keyword + ("\" " + operation + " ") + DecimalString(count);
    assert LogLine(keyword, operation, count) == Prefix + body + Suffix;
    Framed(Prefix, body, Suffix);
    ParseBodyRoundTrip(keyword, operation, count);
  }

  /** The log is the tally, entry by entry and in order: line `i` reads back
      as the `i`-th keyword with its count. */
  lemma LogRendersTally(t: Tally, operation: string)
    requires Valid(t)
    ensures forall i :: 0 <= i < |t.keys| ==>
      ParseLine(LogLines(t, operation)[i], operation) == Some((t.keys[i], t.counts[t.keys[i]]))
  {
    forall i | 0 <= i < |t.keys|
      ensures ParseLine(LogLines(t, operation)[i], operation) == Some((t.keys[i], t.counts[t.keys[i]]))
    {
      LogLineRoundTrip(t.keys[i], operation, t.counts[t.keys[i]]);
    }
  }
}
