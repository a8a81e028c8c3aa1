/**
 * The built-in console handler (logger/src/sub_func.rs, `ConsoleHandler::handle`): the line it
 * prints for a record. Writing to standard output, bold type and escape rendering are not modelled;
 * the line keeps the abstract colour of its heading.
 */
module Console {
  import opened Outcomes
  import opened Records
  import opened Ansi
  import opened TimeFormat

  /** What the console handler prints for one record: coloured heading, timestamp and message. */
  datatype ConsoleLine = ConsoleLine(heading: Colored, time: string, msg: string)

  /** The handler's output for `record`: heading coloured by its colour string, time in the console pattern. */
  function ConsoleHandle(record: LogRecord): ConsoleLine
  {
    ConsoleLine(AnsiToColored(record.color, record.heading),
                FormatLogRecordTime(record, ConsolePattern),
                record.msg)
  }

  /**
   * The characters of a printed line, `[heading] : time -> msg`, with the colour and the
   * trailing newline left out.
   */
  function Printed(line: ConsoleLine): string
  {
    "[" + line.heading.text + "] : " + line.time + " -> " + line.msg
  }

  /** The position of the first `c` in `s`, or `|s|` when there is none. */
  function IndexOf(s: string, c: char): (i: nat)
    ensures i <= |s| && (i < |s| ==> s[i] == c)
    ensures forall j :: 0 <= j < i ==> s[j] != c
    decreases |s|
  {
    if s == [] then 0 else if s[0] == c then 0 else 1 + IndexOf(s[1..], c)
  }

  /**
   * Reads a printed line back into heading, time and message, taking the heading up to the
   * first `]` and a time of the console pattern's 17 characters.
   */
  function ParsePrinted(s: string): Option<(string, string, string)>
  {
    if |s| == 0 || s[0] != '[' then None
    else
      var rest := s[1..];
      var k := IndexOf(rest, ']');
      var after := rest[k..];
      if |after| < 25 || after[..4] != "] : " || after[21..25] != " -> " then None
      else Some((rest[..k], after[4..21], after[25..]))
  }

  lemma AfterHeading(t: string, m: string)
    requires |t| == 17
    ensures var after := "] : " + t + " -> " + m;
            |after| >= 25 && after[..4] == "] : " && after[4..21] == t && after[21..25] == " -> " && after[25..] == m
  {
    var after := "] : " + t + " -> " + m;
    assert after == "] : " + (t + (" -> " + m));
  }

  /** A heading without `]` and a 17-character time are read back from the printed line. */
  lemma ParsePrintedRoundTrip(line: ConsoleLine)
    requires ']' !in line.heading.text && |line.time| == 17
    ensures ParsePrinted(Printed(line)) == Some((line.heading.text, line.time, line.msg))
  {
    var h, t, m := line.heading.text, line.time, line.msg;
    var s := Printed(line);
    var after := "] : " + t + " -> " + m;
    var rest := h + after;
    assert s == "[" + rest by {
      assert s == "[" + h + "] : " + t + " -> " + m;
    }
    assert s[1..] == rest;
    assert rest[|h|] == ']' && rest[|h|..] == after && rest[..|h|] == h;
    assert IndexOf(rest, ']') == |h|;
    AfterHeading(t, m);
  }

  /**
   * For a record whose heading has no `]` and whose timestamp is valid, from year 0 on, the
   * console handler prints `[heading] : time -> msg`, with the time in the console pattern
   * (the heading's colour is the one `AnsiToColored` selects, characterised in module Ansi).
   */
  lemma ConsoleHandleLine(record: LogRecord)
    requires ']' !in record.heading
    requires ValidTimestamp(record.timestamp) && record.timestamp.year >= 0
    ensures ParsePrinted(Printed(ConsoleHandle(record)))
              == Some((record.heading, FormatLogRecordTime(record, ConsolePattern), record.msg))
  {
    LookupCharacterised(record.color, record.heading, White);
    ConsoleTimestampReadBack(record);
    ParsePrintedRoundTrip(ConsoleHandle(record));
  }
}
