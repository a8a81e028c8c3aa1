/**
 * Timestamp formatting (logger/src/sub_func.rs, `format_log_record_time`): six ordered
 * replace-all passes over a pattern, each substituting one calendar field.
 */
module TimeFormat {
  import opened Records

  /**
   * Rust's `str::replace`: every non-overlapping occurrence of `pat`, found from left
   * to right, is replaced by `rep`; the text between occurrences is copied.
   */
  function ReplaceAll(s: string, pat: string, rep: string): string
    requires |pat| > 0
    decreases |s|
  {
    if |s| < |pat| then s
    else if s[..|pat|] == pat then rep + ReplaceAll(s[|pat|..], pat, rep)
    else [s[0]] + ReplaceAll(s[1..], pat, rep)
  }

  /** A text that does not contain the first character of `pat` passes through a replacement unchanged. */
  lemma {:induction false} SkipPrefix(a: string, b: string, pat: string, rep: string)
    requires |pat| > 0 && pat[0] !in a
    ensures ReplaceAll(a + b, pat, rep) == a + ReplaceAll(b, pat, rep)
    decreases |a|
  {
    if a != [] {
      var s := a + b;
      if |s| < |pat| {
        assert ReplaceAll(b, pat, rep) == b;
      } else {
        assert s[0] == a[0] && s[..|pat|][0] == s[0];
        assert s[1..] == a[1..] + b;
        SkipPrefix(a[1..], b, pat, rep);
      }
    } else {
      assert a + b == b;
    }
  }

  /** A text free of the first character of `pat` is left as it is. */
  lemma FreeTextUnchanged(s: string, pat: string, rep: string)
    requires |pat| > 0 && pat[0] !in s
    ensures ReplaceAll(s, pat, rep) == s
  {
    SkipPrefix(s, [], pat, rep);
    assert s + [] == s;
  }

  /** An occurrence at the front is replaced and scanning resumes right after it. */
  lemma MatchAtFront(b: string, pat: string, rep: string)
    requires |pat| > 0
    ensures ReplaceAll(pat + b, pat, rep) == rep + ReplaceAll(b, pat, rep)
  {
    var s := pat + b;
    assert s[..|pat|] == pat && s[|pat|..] == b;
  }

  /** Replacing a pattern by itself changes nothing. */
  lemma {:induction false} ReplaceBySelf(s: string, pat: string)
    requires |pat| > 0
    ensures ReplaceAll(s, pat, pat) == s
    decreases |s|
  {
    if |s| >= |pat| {
      if s[..|pat|] == pat {
        ReplaceBySelf(s[|pat|..], pat);
        assert s == pat + s[|pat|..];
      } else {
        ReplaceBySelf(s[1..], pat);
        assert s == [s[0]] + s[1..];
      }
    }
  }

  /** `pat` occurs in `t` starting at position `k`. */
  predicate OccursAt(t: string, pat: string, k: int)
  {
    0 <= k && k + |pat| <= |t| && t[k..k + |pat|] == pat
  }

  /** No character of `rep` occurs in `pat`. */
  predicate Disjoint(rep: string, pat: string)
  {
    forall i :: 0 <= i < |rep| ==> rep[i] !in pat
  }

  /** Every character of `x` occurs in `pat`. */
  predicate AllIn(x: string, pat: string)
  {
    forall i :: 0 <= i < |x| ==> x[i] in pat
  }

  /**
   * A prefix of the result made only of pattern characters contains no replacement, so it
   * was copied from the input.
   */
  lemma {:induction false} CopiedPrefix(u: string, pat: string, rep: string, m: nat)
    requires |pat| > 0 && |rep| > 0 && Disjoint(rep, pat)
    requires m <= |ReplaceAll(u, pat, rep)|
    ensures AllIn(ReplaceAll(u, pat, rep)[..m], pat) ==> m <= |u| && ReplaceAll(u, pat, rep)[..m] == u[..m]
    decreases |u|
  {
    var t := ReplaceAll(u, pat, rep);
    if m > 0 && |u| >= |pat| {
      if u[..|pat|] == pat {
        assert t[..m][0] == rep[0];
      } else {
        var r := ReplaceAll(u[1..], pat, rep);
        assert t == [u[0]] + r;
        CopiedPrefix(u[1..], pat, rep, m - 1);
        assert t[..m] == [u[0]] + r[..m - 1];
        if AllIn(t[..m], pat) {
          var p, q := r[..m - 1], t[..m];
          forall i | 0 <= i < |p|
            ensures p[i] in pat
          {
            assert p[i] == q[i + 1];
          }
          assert u[..m] == [u[0]] + u[1..][..m - 1];
        }
      }
    }
  }

  /** A window past the end of `a` in `a + b` is the same window of `b`, shifted. */
  lemma ShiftedWindow(a: string, b: string, k: int, n: nat)
    requires |a| <= k && k + n <= |a| + |b|
    ensures (a + b)[k..k + n] == b[k - |a|..k - |a| + n]
  {
  }

  /** A copied first character does not start an occurrence, since the input did not. */
  lemma CopiedFrontNoOccurrence(s: string, pat: string, rep: string)
    requires |pat| > 0 && |rep| > 0 && Disjoint(rep, pat)
    requires |s| >= |pat| && s[..|pat|] != pat && |pat| <= |ReplaceAll(s, pat, rep)|
    ensures ReplaceAll(s, pat, rep)[..|pat|] != pat
  {
    var t, r := ReplaceAll(s, pat, rep), ReplaceAll(s[1..], pat, rep);
    var m := |pat| - 1;
    assert t == [s[0]] + r;
    assert t[..|pat|] == [s[0]] + r[..m];
    CopiedPrefix(s[1..], pat, rep, m);
    if AllIn(r[..m], pat) {
      assert s[..|pat|] == [s[0]] + s[1..][..m];
    } else {
      var i :| 0 <= i < m && r[..m][i] !in pat;
      assert t[..|pat|][i + 1] == r[..m][i];
      assert pat[i + 1] in pat;
    }
  }

  /**
   * A non-empty replacement that shares no character with the pattern leaves no occurrence
   * of the pattern anywhere in the result: neither inside a replacement, nor across one,
   * nor in copied text.
   */
  lemma {:induction false} NoOccurrenceLeft(s: string, pat: string, rep: string, k: int)
    requires |pat| > 0 && |rep| > 0 && Disjoint(rep, pat)
    ensures !OccursAt(ReplaceAll(s, pat, rep), pat, k)
    decreases |s|
  {
    var t := ReplaceAll(s, pat, rep);
    if |s| >= |pat| && 0 <= k && k + |pat| <= |t| {
      if s[..|pat|] == pat {
        var r := ReplaceAll(s[|pat|..], pat, rep);
        assert t == rep + r;
        if k < |rep| {
          assert t[k..k + |pat|][0] == rep[k] && pat[0] in pat;
        } else {
          NoOccurrenceLeft(s[|pat|..], pat, rep, k - |rep|);
          ShiftedWindow(rep, r, k, |pat|);
        }
      } else if k > 0 {
        var r := ReplaceAll(s[1..], pat, rep);
        assert t == [s[0]] + r;
        NoOccurrenceLeft(s[1..], pat, rep, k - 1);
        ShiftedWindow([s[0]], r, k, |pat|);
      } else {
        CopiedFrontNoOccurrence(s, pat, rep);
      }
    }
  }

  /** The character of a decimal digit. */
  function DigitChar(d: nat): char
    requires d < 10
  {
    "0123456789"[d]
  }

  /** The decimal digits of a natural number, most significant first, without leading zeros. */
  function NatDecimal(n: nat): string
    decreases n
  {
    if n < 10 then [DigitChar(n)] else NatDecimal(n / 10) + [DigitChar(n % 10)]
  }

  /** Rust's `to_string` of a signed integer: an optional minus sign and the decimal digits. */
  function IntDecimal(n: int): string
  {
    if n < 0 then "-" + NatDecimal(-n) else NatDecimal(n)
  }

  /**
   * Rust's `format!("{:02}", n)`: the decimal form zero-padded to width two. The sign
   * counts toward the width, so a negative number is never padded.
   */
  function Pad2(n: int): string
  {
    if 0 <= n < 10 then "0" + NatDecimal(n) else IntDecimal(n)
  }

  /** Rust's `%` on `i32`: the remainder truncated toward zero, with the sign of the dividend. */
  function TruncRem(a: int, b: int): int
    requires b > 0
  {
    if a >= 0 then a % b else -((-a) % b)
  }

  /** The characters a formatted number can contain. */
  predicate Numeric(s: string)
  {
    forall i :: 0 <= i < |s| ==> s[i] in "-0123456789"
  }

  lemma {:induction false} NatDecimalNumeric(n: nat)
    ensures Numeric(NatDecimal(n)) && |NatDecimal(n)| > 0
    decreases n
  {
    if n >= 10 {
      NatDecimalNumeric(n / 10);
    }
  }

  lemma IntDecimalNumeric(n: int)
    ensures Numeric(IntDecimal(n)) && |IntDecimal(n)| > 0
  {
    NatDecimalNumeric(if n < 0 then -n else n);
  }

  lemma Pad2Numeric(n: int)
    ensures Numeric(Pad2(n)) && |Pad2(n)| > 0
  {
    IntDecimalNumeric(n);
    NatDecimalNumeric(if n < 0 then -n else n);
  }

  /** A formatted number holds none of the pattern letters, so later passes leave it alone. */
  lemma NumericHasNoLetter(s: string)
    requires Numeric(s)
    ensures 'Y' !in s && 'D' !in s && 'H' !in s && 'M' !in s && 'S' !in s
  {
    forall i | 0 <= i < |s|
      ensures s[i] != 'Y' && s[i] != 'D' && s[i] != 'H' && s[i] != 'M' && s[i] != 'S'
    {
      assert s[i] in "-0123456789";
    }
  }

  /** The value of a digit character. */
  function DigitValue(c: char): nat
  {
    if '0' <= c <= '9' then (c as int - '0' as int) as nat else 0
  }

  /** The value of a string of decimal digits, most significant first. */
  function ParseNat(s: string): nat
    decreases |s|
  {
    if s == [] then 0 else ParseNat(s[..|s| - 1]) * 10 + DigitValue(s[|s| - 1])
  }

  /** Reading back the digits of a natural number gives that number. */
  lemma {:induction false} ParseNatDecimal(n: nat)
    ensures ParseNat(NatDecimal(n)) == n
    decreases n
  {
    if n < 10 {
      assert DigitValue(DigitChar(n)) == n;
    } else {
      ParseNatDecimal(n / 10);
      var s := NatDecimal(n);
      assert s[..|s| - 1] == NatDecimal(n / 10);
      assert DigitValue(DigitChar(n % 10)) == n % 10;
    }
  }

  /**
   * A field value in 0..99 is printed as exactly two digits that read back as the value,
   * the tens digit first.
   */
  lemma Pad2TwoDigits(n: int)
    requires 0 <= n < 100
    ensures |Pad2(n)| == 2
    ensures Pad2(n) == [DigitChar(n / 10), DigitChar(n % 10)]
    ensures ParseNat(Pad2(n)) == n
  {
    if n < 10 {
      assert Pad2(n) == [DigitChar(0), DigitChar(n)];
    } else {
      assert NatDecimal(n / 10) == [DigitChar(n / 10)];
    }
    assert ParseNat(Pad2(n)[..1]) == n / 10;
  }

  /** The pattern the console handler formats timestamps with. */
  const ConsolePattern: string := "YY-MM-DD HH:MM:SS"

  /**
   * `format_log_record_time`: YYYY becomes the full year, YY the year modulo 100, DD the
   * day, HH the hour, MM the minute and SS the second, in that order. The month is never
   * printed: "MM" stands for minutes.
   */
  function FormatLogRecordTime(record: LogRecord, pattern: string): string
  {
    var t := record.timestamp;
    var s1 := ReplaceAll(pattern, "YYYY", IntDecimal(t.year));
    var s2 := ReplaceAll(s1, "YY", Pad2(TruncRem(t.year, 100)));
    var s3 := ReplaceAll(s2, "DD", Pad2(t.day));
    var s4 := ReplaceAll(s3, "HH", Pad2(t.hour));
    var s5 := ReplaceAll(s4, "MM", Pad2(t.minute));
    ReplaceAll(s5, "SS", Pad2(t.second))
  }

  // The six passes over the console pattern, one lemma each. The pattern is taken apart as
  // "YY" d1 "MM" d2 "DD" d3 "HH" d4 "MM" d5 "SS" with one-character separators d1..d5, and the
  // intermediate texts are nested to the right, so that each step peels one piece off the front.

  /** Separators that none of the passes touch. */
  predicate PlainText(d: string)
  {
    'Y' !in d && 'D' !in d && 'H' !in d && 'M' !in d && 'S' !in d
  }

  /** No four Y's in a row: the YYYY pass leaves a pattern starting "YY-" as it is. */
  lemma YearPass(tail: string, y4: string)
    requires |tail| > 0 && tail[0] != 'Y' && 'Y' !in tail
    ensures ReplaceAll("YY" + tail, "YYYY", y4) == "YY" + tail
  {
    var p := "YY" + tail;
    var q := p[1..];
    assert p[0] == 'Y' && q == "Y" + tail && q[1..] == tail;
    if |p| >= 4 {
      assert p[..4][2] == tail[0];
    }
    if |q| >= 4 {
      assert q[..4][1] == tail[0];
    }
    FreeTextUnchanged(tail, "YYYY", y4);
  }

  lemma ShortYearPass(tail: string, yy: string)
    requires 'Y' !in tail
    ensures ReplaceAll("YY" + tail, "YY", yy) == yy + tail
  {
    MatchAtFront(tail, "YY", yy);
    FreeTextUnchanged(tail, "YY", yy);
  }

  lemma DayPass(yy: string, d1: string, d2: string, tail: string, dd: string)
    requires Numeric(yy) && PlainText(d1) && PlainText(d2) && 'D' !in tail
    ensures ReplaceAll(yy + (d1 + ("MM" + (d2 + ("DD" + tail)))), "DD", dd)
              == yy + (d1 + ("MM" + (d2 + (dd + tail))))
  {
    NumericHasNoLetter(yy);
    SkipPrefix(yy, d1 + ("MM" + (d2 + ("DD" + tail))), "DD", dd);
    SkipPrefix(d1, "MM" + (d2 + ("DD" + tail)), "DD", dd);
    SkipPrefix("MM", d2 + ("DD" + tail), "DD", dd);
    SkipPrefix(d2, "DD" + tail, "DD", dd);
    MatchAtFront(tail, "DD", dd);
    FreeTextUnchanged(tail, "DD", dd);
  }

  lemma HourPass(yy: string, d1: string, d2: string, dd: string, d3: string, tail: string, hh: string)
    requires Numeric(yy) && Numeric(dd) && PlainText(d1) && PlainText(d2) && PlainText(d3) && 'H' !in tail
    ensures ReplaceAll(yy + (d1 + ("MM" + (d2 + (dd + (d3 + ("HH" + tail)))))), "HH", hh)
              == yy + (d1 + ("MM" + (d2 + (dd + (d3 + (hh + tail))))))
  {
    NumericHasNoLetter(yy);
    NumericHasNoLetter(dd);
    SkipPrefix(yy, d1 + ("MM" + (d2 + (dd + (d3 + ("HH" + tail))))), "HH", hh);
    SkipPrefix(d1, "MM" + (d2 + (dd + (d3 + ("HH" + tail)))), "HH", hh);
    SkipPrefix("MM", d2 + (dd + (d3 + ("HH" + tail))), "HH", hh);
    SkipPrefix(d2, dd + (d3 + ("HH" + tail)), "HH", hh);
    SkipPrefix(dd, d3 + ("HH" + tail), "HH", hh);
    SkipPrefix(d3, "HH" + tail, "HH", hh);
    MatchAtFront(tail, "HH", hh);
    FreeTextUnchanged(tail, "HH", hh);
  }

  lemma MinutePass(yy: string, d1: string, d2: string, dd: string, d3: string, hh: string, d4: string,
                   tail: string, mi: string)
    requires Numeric(yy) && Numeric(dd) && Numeric(hh)
    requires PlainText(d1) && PlainText(d2) && PlainText(d3) && PlainText(d4) && 'M' !in tail
    ensures ReplaceAll(yy + (d1 + ("MM" + (d2 + (dd + (d3 + (hh + (d4 + ("MM" + tail)))))))), "MM", mi)
              == yy + (d1 + (mi + (d2 + (dd + (d3 + (hh + (d4 + (mi + tail))))))))
  {
    NumericHasNoLetter(yy);
    NumericHasNoLetter(dd);
    NumericHasNoLetter(hh);
    SkipPrefix(yy, d1 + ("MM" + (d2 + (dd + (d3 + (hh + (d4 + ("MM" + tail))))))), "MM", mi);
    SkipPrefix(d1, "MM" + (d2 + (dd + (d3 + (hh + (d4 + ("MM" + tail)))))), "MM", mi);
    MatchAtFront(d2 + (dd + (d3 + (hh + (d4 + ("MM" + tail))))), "MM", mi);
    SkipPrefix(d2, dd + (d3 + (hh + (d4 + ("MM" + tail)))), "MM", mi);
    SkipPrefix(dd, d3 + (hh + (d4 + ("MM" + tail))), "MM", mi);
    SkipPrefix(d3, hh + (d4 + ("MM" + tail)), "MM", mi);
    SkipPrefix(hh, d4 + ("MM" + tail), "MM", mi);
    SkipPrefix(d4, "MM" + tail, "MM", mi);
    MatchAtFront(tail, "MM", mi);
    FreeTextUnchanged(tail, "MM", mi);
  }

  lemma SecondPass(yy: string, d1: string, mi: string, d2: string, dd: string, d3: string, hh: string,
                   d4: string, d5: string, ss: string)
    requires Numeric(yy) && Numeric(mi) && Numeric(dd) && Numeric(hh)
    requires PlainText(d1) && PlainText(d2) && PlainText(d3) && PlainText(d4) && PlainText(d5)
    ensures ReplaceAll(yy + (d1 + (mi + (d2 + (dd + (d3 + (hh + (d4 + (mi + (d5 + "SS"))))))))), "SS", ss)
              == yy + (d1 + (mi + (d2 + (dd + (d3 + (hh + (d4 + (mi + (d5 + ss)))))))))
  {
    NumericHasNoLetter(yy);
    NumericHasNoLetter(mi);
    NumericHasNoLetter(dd);
    NumericHasNoLetter(hh);
    SkipPrefix(yy, d1 + (mi + (d2 + (dd + (d3 + (hh + (d4 + (mi + (d5 + "SS")))))))), "SS", ss);
    SkipPrefix(d1, mi + (d2 + (dd + (d3 + (hh + (d4 + (mi + (d5 + "SS"))))))), "SS", ss);
    SkipPrefix(mi, d2 + (dd + (d3 + (hh + (d4 + (mi + (d5 + "SS")))))), "SS", ss);
    SkipPrefix(d2, dd + (d3 + (hh + (d4 + (mi + (d5 + "SS"))))), "SS", ss);
    SkipPrefix(dd, d3 + (hh + (d4 + (mi + (d5 + "SS")))), "SS", ss);
    SkipPrefix(d3, hh + (d4 + (mi + (d5 + "SS"))), "SS", ss);
    SkipPrefix(hh, d4 + (mi + (d5 + "SS")), "SS", ss);
    SkipPrefix(d4, mi + (d5 + "SS"), "SS", ss);
    SkipPrefix(mi, d5 + "SS", "SS", ss);
    SkipPrefix(d5, "SS", "SS", ss);
    assert "SS" == "SS" + [];
    MatchAtFront([], "SS", ss);
    assert ss + [] == ss;
  }

  /** A pattern shaped like the console one: the six fields in console order, joined by plain separators. */
  function ConsoleLikePattern(d1: string, d2: string, d3: string, d4: string, d5: string): string
  {
    "YY" + (d1 + ("MM" + (d2 + ("DD" + (d3 + ("HH" + (d4 + ("MM" + (d5 + "SS")))))))))
  }

  /** Past its leading "YY", a console-like pattern holds no Y. */
  lemma NoYearAfterFront(d1: string, d2: string, d3: string, d4: string, d5: string)
    requires |d1| > 0 && PlainText(d1) && PlainText(d2) && PlainText(d3) && PlainText(d4) && PlainText(d5)
    ensures var tail := d1 + ("MM" + (d2 + ("DD" + (d3 + ("HH" + (d4 + ("MM" + (d5 + "SS"))))))));
            |tail| > 0 && tail[0] != 'Y' && 'Y' !in tail
  {
    var tail := d1 + ("MM" + (d2 + ("DD" + (d3 + ("HH" + (d4 + ("MM" + (d5 + "SS"))))))));
    assert tail[0] == d1[0];
    assert forall i :: 0 <= i < |tail| ==> tail[i] != 'Y';
  }

  /**
   * A console-like pattern prints the two-digit year, the minute, the day, the hour, the minute
   * again and the second, with its separators kept: the month never appears.
   */
  lemma ConsoleLikePatternFields(record: LogRecord, d1: string, d2: string, d3: string, d4: string, d5: string)
    requires |d1| > 0 && PlainText(d1) && PlainText(d2) && PlainText(d3) && PlainText(d4) && PlainText(d5)
    ensures var t := record.timestamp;
            var yy, mi := Pad2(TruncRem(t.year, 100)), Pad2(t.minute);
            FormatLogRecordTime(record, ConsoleLikePattern(d1, d2, d3, d4, d5))
              == yy + (d1 + (mi + (d2 + (Pad2(t.day) + (d3 + (Pad2(t.hour) + (d4 + (mi + (d5 + Pad2(t.second))))))))))
  {
    var t := record.timestamp;
    var yy, dd := Pad2(TruncRem(t.year, 100)), Pad2(t.day);
    var hh, mi, ss := Pad2(t.hour), Pad2(t.minute), Pad2(t.second);
    Pad2Numeric(TruncRem(t.year, 100));
    Pad2Numeric(t.day);
    Pad2Numeric(t.hour);
    Pad2Numeric(t.minute);
    YearPasses(record, d1, d2, d3, d4, d5);
    FieldPasses(yy, dd, hh, mi, ss, d1, d2, d3, d4, d5);
  }

  /** The two year passes turn a console-like pattern's leading "YY" into the two-digit year. */
  lemma YearPasses(record: LogRecord, d1: string, d2: string, d3: string, d4: string, d5: string)
    requires |d1| > 0 && PlainText(d1) && PlainText(d2) && PlainText(d3) && PlainText(d4) && PlainText(d5)
    ensures var t := record.timestamp;
            var tail := d1 + ("MM" + (d2 + ("DD" + (d3 + ("HH" + (d4 + ("MM" + (d5 + "SS"))))))));
            ReplaceAll(ReplaceAll(ConsoleLikePattern(d1, d2, d3, d4, d5), "YYYY", IntDecimal(t.year)),
                       "YY", Pad2(TruncRem(t.year, 100)))
              == Pad2(TruncRem(t.year, 100)) + tail
  {
    var t := record.timestamp;
    var tail := d1 + ("MM" + (d2 + ("DD" + (d3 + ("HH" + (d4 + ("MM" + (d5 + "SS"))))))));
    NoYearAfterFront(d1, d2, d3, d4, d5);
    YearPass(tail, IntDecimal(t.year));
    ShortYearPass(tail, Pad2(TruncRem(t.year, 100)));
  }

  /** The day, hour, minute and second passes fill in the remaining fields. */
  lemma FieldPasses(yy: string, dd: string, hh: string, mi: string, ss: string,
                    d1: string, d2: string, d3: string, d4: string, d5: string)
    requires Numeric(yy) && Numeric(dd) && Numeric(hh) && Numeric(mi)
    requires PlainText(d1) && PlainText(d2) && PlainText(d3) && PlainText(d4) && PlainText(d5)
    ensures var s2 := yy + (d1 + ("MM" + (d2 + ("DD" + (d3 + ("HH" + (d4 + ("MM" + (d5 + "SS")))))))));
            ReplaceAll(ReplaceAll(ReplaceAll(ReplaceAll(s2, "DD", dd), "HH", hh), "MM", mi), "SS", ss)
              == yy + (d1 + (mi + (d2 + (dd + (d3 + (hh + (d4 + (mi + (d5 + ss)))))))))
  {
    DayHourPasses(yy, dd, hh, d1, d2, d3, d4 + ("MM" + (d5 + "SS")));
    MinutePass(yy, d1, d2, dd, d3, hh, d4, d5 + "SS", mi);
    SecondPass(yy, d1, mi, d2, dd, d3, hh, d4, d5, ss);
  }

  lemma DayHourPasses(yy: string, dd: string, hh: string, d1: string, d2: string, d3: string, tail: string)
    requires Numeric(yy) && Numeric(dd) && PlainText(d1) && PlainText(d2) && PlainText(d3)
    requires 'D' !in tail && 'H' !in tail
    ensures ReplaceAll(ReplaceAll(yy + (d1 + ("MM" + (d2 + ("DD" + (d3 + ("HH" + tail)))))), "DD", dd), "HH", hh)
              == yy + (d1 + ("MM" + (d2 + (dd + (d3 + (hh + tail))))))
  {
    assert 'D' !in d3 + ("HH" + tail) by {
      var u := d3 + ("HH" + tail);
      assert forall i :: 0 <= i < |u| ==> u[i] != 'D';
    }
    DayPass(yy, d1, d2, d3 + ("HH" + tail), dd);
    HourPass(yy, d1, d2, dd, d3, tail, hh);
  }

  /**
   * The console pattern "YY-MM-DD HH:MM:SS" prints the two-digit year, minute, day, hour,
   * minute and second: the month never appears, the minute appears twice.
   */
  lemma ConsolePatternFields(record: LogRecord)
    ensures var t := record.timestamp;
            var yy, mi := Pad2(TruncRem(t.year, 100)), Pad2(t.minute);
            FormatLogRecordTime(record, ConsolePattern)
              == yy + ("-" + (mi + ("-" + (Pad2(t.day) + (" " + (Pad2(t.hour) + (":" + (mi + (":" + Pad2(t.second))))))))))
  {
    assert ConsolePattern == ConsoleLikePattern("-", "-", " ", ":", ":");
    ConsoleLikePatternFields(record, "-", "-", " ", ":", ":");
  }

  /** A two-character field, a one-character separator, and what follows. */
  lemma FieldThenSeparator(field: string, sep: string, rest: string)
    requires |field| == 2 && |sep| == 1
    ensures var r := field + (sep + rest);
            |r| == 3 + |rest| && r[..2] == field && r[2] == sep[0] && r[3..] == rest
  {
    var r := field + (sep + rest);
    assert r[..2] == field;
    assert r[3..] == rest;
  }

  /**
   * Laid out with two-digit fields, the console timestamp is 17 characters long, with the
   * fields at offsets 0, 3, 6, 9, 12 and 15 and the separators between them.
   */
  lemma ConsoleLayout(yy: string, mi: string, dd: string, hh: string, ss: string)
    requires |yy| == 2 && |mi| == 2 && |dd| == 2 && |hh| == 2 && |ss| == 2
    ensures var r := yy + ("-" + (mi + ("-" + (dd + (" " + (hh + (":" + (mi + (":" + ss)))))))));
            |r| == 17 && r[0..2] == yy && r[3..5] == mi && r[6..8] == dd && r[9..11] == hh
            && r[12..14] == mi && r[15..17] == ss
            && r[2] == '-' && r[5] == '-' && r[8] == ' ' && r[11] == ':' && r[14] == ':'
  {
    var r5 := mi + (":" + ss);
    var r4 := hh + (":" + r5);
    var r3 := dd + (" " + r4);
    var r2 := mi + ("-" + r3);
    var r := yy + ("-" + r2);
    FieldThenSeparator(mi, ":", ss);
    FieldThenSeparator(hh, ":", r5);
    FieldThenSeparator(dd, " ", r4);
    FieldThenSeparator(mi, "-", r3);
    FieldThenSeparator(yy, "-", r2);
    assert r[3..5] == r2[..2];
    assert r[6..8] == r3[..2] && r[8] == r3[2];
    assert r[9..11] == r4[..2] && r[11] == r4[2];
    assert r[12..14] == r5[..2] && r[14] == r5[2];
    assert r[15..17] == ss;
  }

  /**
   * For a valid timestamp of a year from 0 on, the console timestamp has length 17 and each
   * field reads back as the two-digit year, minute, day, hour, minute and second.
   */
  lemma ConsoleTimestampReadBack(record: LogRecord)
    requires ValidTimestamp(record.timestamp) && record.timestamp.year >= 0
    ensures var r, t := FormatLogRecordTime(record, ConsolePattern), record.timestamp;
            |r| == 17
            && ParseNat(r[0..2]) == t.year % 100 && ParseNat(r[3..5]) == t.minute
            && ParseNat(r[6..8]) == t.day && ParseNat(r[9..11]) == t.hour
            && ParseNat(r[12..14]) == t.minute && ParseNat(r[15..17]) == t.second
  {
    var t := record.timestamp;
    ConsolePatternFields(record);
    assert TruncRem(t.year, 100) == t.year % 100;
    Pad2TwoDigits(t.year % 100);
    Pad2TwoDigits(t.minute);
    Pad2TwoDigits(t.day);
    Pad2TwoDigits(t.hour);
    Pad2TwoDigits(t.second);
    ConsoleLayout(Pad2(t.year % 100), Pad2(t.minute), Pad2(t.day), Pad2(t.hour), Pad2(t.second));
  }

  /** The pattern "YYYY" prints the full year: the later passes do not touch its digits. */
  lemma FullYearPattern(record: LogRecord)
    ensures FormatLogRecordTime(record, "YYYY") == IntDecimal(record.timestamp.year)
  {
    var t := record.timestamp;
    var y4 := IntDecimal(t.year);
    assert "YYYY" == "YYYY" + [];
    MatchAtFront([], "YYYY", y4);
    assert y4 + [] == y4;
    IntDecimalNumeric(t.year);
    NumericHasNoLetter(y4);
    FreeTextUnchanged(y4, "YY", Pad2(TruncRem(t.year, 100)));
    FreeTextUnchanged(y4, "DD", Pad2(t.day));
    FreeTextUnchanged(y4, "HH", Pad2(t.hour));
    FreeTextUnchanged(y4, "MM", Pad2(t.minute));
    FreeTextUnchanged(y4, "SS", Pad2(t.second));
  }

  /** A pattern holding none of the letters Y, D, H, M and S is printed as it is. */
  lemma PlainPatternUnchanged(record: LogRecord, pattern: string)
    requires PlainText(pattern)
    ensures FormatLogRecordTime(record, pattern) == pattern
  {
    var t := record.timestamp;
    FreeTextUnchanged(pattern, "YYYY", IntDecimal(t.year));
    FreeTextUnchanged(pattern, "YY", Pad2(TruncRem(t.year, 100)));
    FreeTextUnchanged(pattern, "DD", Pad2(t.day));
    FreeTextUnchanged(pattern, "HH", Pad2(t.hour));
    FreeTextUnchanged(pattern, "MM", Pad2(t.minute));
    FreeTextUnchanged(pattern, "SS", Pad2(t.second));
  }

  /** The month of a timestamp has no influence on the formatted text, whatever the pattern. */
  lemma MonthNeverPrinted(record: LogRecord, month: nat, pattern: string)
    ensures FormatLogRecordTime(record.(timestamp := record.timestamp.(month := month)), pattern)
              == FormatLogRecordTime(record, pattern)
  {
  }

  /**
   * The last pass leaves no "SS" in the result, whatever the pattern: a formatted second is
   * never read as a pattern again.
   */
  lemma NoSecondsLeft(record: LogRecord, pattern: string, k: int)
    ensures !OccursAt(FormatLogRecordTime(record, pattern), "SS", k)
  {
    var ss := Pad2(record.timestamp.second);
    Pad2Numeric(record.timestamp.second);
    NumericHasNoLetter(ss);
    var t := record.timestamp;
    var s5 := ReplaceAll(ReplaceAll(ReplaceAll(ReplaceAll(ReplaceAll(pattern, "YYYY", IntDecimal(t.year)),
                "YY", Pad2(TruncRem(t.year, 100))), "DD", Pad2(t.day)), "HH", Pad2(t.hour)), "MM", Pad2(t.minute));
    NoOccurrenceLeft(s5, "SS", ss, k);
  }
}
