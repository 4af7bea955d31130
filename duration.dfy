/**
 * The duration codec of the timer: the `HH:MM:SS` line accepted by
 * `Timer::getTimeInput` and the remaining-time text produced by
 * `Timer::getRemainingTime`.
 */
module Duration {
  import opened Decimal
  import opened CppInt

  datatype Option<T> = None | Some(value: T)

  /** What `getRemainingTime` returns once no time is left. */
  const Sentinel: string := "Countdown finished"

  /** Three fields joined by ':'. */
  function Join3(h: string, m: string, s: string): string {
    h + [':'] + m + [':'] + s
  }

  /** Fields joined by ':' (the inverse of SplitFields). */
  function JoinFields(fields: seq<string>): string
    requires |fields| >= 1
    decreases |fields|
  {
    if |fields| == 1 then fields[0] else fields[0] + [':'] + JoinFields(fields[1..])
  }

  /** The line cut at every ':'; there is always at least one field. */
  function SplitFields(line: string): (fields: seq<string>)
    ensures |fields| >= 1
    decreases |line|
  {
    if |line| == 0 then [""]
    else
      var rest := SplitFields(line[1..]);
      if line[0] == ':' then [""] + rest
      else [[line[0]] + rest[0]] + rest[1..]
  }

  /**
   * `std::regex_match` against `(\d+):(\d+):(\d+)`: the WHOLE line is three
   * non-empty digit runs separated by single colons.
   */
  ghost predicate MatchesPattern(line: string) {
    exists h, m, s :: IsNumeral(h) && IsNumeral(m) && IsNumeral(s) && line == Join3(h, m, s)
  }

  /**
   * One attempt of `getTimeInput`: the pattern check, `std::stoi` on each
   * field, the (always true) non-negativity guard and the total in seconds.
   */
  function ParseDuration(line: string): Option<nat> {
    var fields := SplitFields(line);
    if |fields| == 3 && IsNumeral(fields[0]) && IsNumeral(fields[1]) && IsNumeral(fields[2]) then
      var hours, minutes, seconds := Value(fields[0]), Value(fields[1]), Value(fields[2]);
      if hours >= 0 && minutes >= 0 && seconds >= 0 then
        Some(hours * 3600 + minutes * 60 + seconds)
      else
        None
    else
      None
  }

  /** The div/mod decomposition of `getRemainingTime`. */
  function HoursMinutesSeconds(remaining: nat): (t: (nat, nat, nat))
    ensures t.0 * 3600 + t.1 * 60 + t.2 == remaining
    ensures t.1 < 60 && t.2 < 60
  {
    (remaining / 3600, (remaining % 3600) / 60, remaining % 60)
  }

  /** Three numbers, each written zero-padded to at least two digits, joined by ':'. */
  function Clock(h: nat, m: nat, s: nat): string {
    Join3(ZeroPad(Show(h), 2), ZeroPad(Show(m), 2), ZeroPad(Show(s), 2))
  }

  /** `Timer::getRemainingTime` for a countdown of `length` seconds. */
  function RemainingTime(length: int, elapsed: int): string {
    var remaining := length - elapsed;
    if remaining <= 0 then Sentinel
    else
      var t := HoursMinutesSeconds(remaining);
      Clock(t.0, t.1, t.2)
  }

  // ---------------------------------------------------------------------
  // Splitting and joining

  lemma {:induction false} SplitColonFree(a: string)
    requires ':' !in a
    ensures SplitFields(a) == [a]
    decreases |a|
  {
    if |a| > 0 {
      assert ':' !in a[1..] by {
        forall i | 0 <= i < |a[1..]| ensures a[1..][i] != ':' { assert a[1..][i] == a[i + 1]; }
      }
      SplitColonFree(a[1..]);
      assert [a[0]] + a[1..] == a;
    }
  }

  lemma {:induction false} SplitCons(a: string, t: string)
    requires ':' !in a
    ensures SplitFields(a + [':'] + t) == [a] + SplitFields(t)
    decreases |a|
  {
    var line := a + [':'] + t;
    if |a| == 0 {
      assert line[1..] == t;
    } else {
      assert line[0] == a[0];
      assert line[1..] == a[1..] + [':'] + t;
      assert ':' !in a[1..] by {
        forall i | 0 <= i < |a[1..]| ensures a[1..][i] != ':' { assert a[1..][i] == a[i + 1]; }
      }
      SplitCons(a[1..], t);
      assert [a[0]] + a[1..] == a;
    }
  }

  /** Cutting a line at its colons and gluing the pieces back gives the line. */
  lemma {:induction false} JoinSplit(line: string)
    ensures JoinFields(SplitFields(line)) == line
    decreases |line|
  {
    if |line| > 0 {
      var rest := SplitFields(line[1..]);
      JoinSplit(line[1..]);
      if line[0] == ':' {
        assert ([""] + rest)[1..] == rest;
        assert line == [':'] + line[1..];
      } else {
        var fields := [[line[0]] + rest[0]] + rest[1..];
        if |rest| == 1 {
          assert line == [line[0]] + line[1..];
        } else {
          assert fields[1..] == rest[1..];
          assert JoinFields(rest) == rest[0] + [':'] + JoinFields(rest[1..]);
          assert line == [line[0]] + line[1..];
        }
      }
    }
  }

  /** Colon-free fields survive being joined and split again. */
  lemma SplitJoin3(h: string, m: string, s: string)
    requires ':' !in h && ':' !in m && ':' !in s
    ensures SplitFields(Join3(h, m, s)) == [h, m, s]
  {
    SplitColonFree(s);
    SplitCons(m, s);
    assert Join3(h, m, s) == h + [':'] + (m + [':'] + s);
    SplitCons(h, m + [':'] + s);
  }

  lemma JoinThree(fields: seq<string>)
    requires |fields| == 3
    ensures JoinFields(fields) == Join3(fields[0], fields[1], fields[2])
  {
    assert fields[1..][1..] == [fields[2]];
    assert JoinFields(fields[1..]) == fields[1] + [':'] + fields[2];
  }

  lemma NumeralColonFree(d: string)
    requires IsDigits(d)
    ensures ':' !in d
  {
    forall i | 0 <= i < |d| ensures d[i] != ':' {
      assert IsDigit(d[i]);
    }
  }

  // ---------------------------------------------------------------------
  // The parser

  /** Every line of the form `digits:digits:digits` is read as h*3600 + m*60 + s. */
  lemma ParseFields(h: string, m: string, s: string)
    requires IsNumeral(h) && IsNumeral(m) && IsNumeral(s)
    ensures ParseDuration(Join3(h, m, s)) == Some(Value(h) * 3600 + Value(m) * 60 + Value(s))
  {
    NumeralColonFree(h);
    NumeralColonFree(m);
    NumeralColonFree(s);
    SplitJoin3(h, m, s);
  }

  lemma ParseFieldValues(h: string, m: string, s: string, hv: nat, mv: nat, sv: nat)
    requires IsNumeral(h) && IsNumeral(m) && IsNumeral(s)
    requires Value(h) == hv && Value(m) == mv && Value(s) == sv
    ensures ParseDuration(Join3(h, m, s)) == Some(hv * 3600 + mv * 60 + sv)
  {
    ParseFields(h, m, s);
  }

  /**
   * A line is accepted exactly when the whole line matches `\d+:\d+:\d+`;
   * the non-negativity guard never rejects a matching line.
   */
  lemma ParseAcceptsExactlyPattern(line: string)
    ensures ParseDuration(line).Some? <==> MatchesPattern(line)
  {
    if MatchesPattern(line) {
      var h, m, s :| IsNumeral(h) && IsNumeral(m) && IsNumeral(s) && line == Join3(h, m, s);
      ParseFields(h, m, s);
    }
    if ParseDuration(line).Some? {
      var fields := SplitFields(line);
      JoinSplit(line);
      JoinThree(fields);
    }
  }

  /** An accepted line is worth its three fields in seconds. */
  lemma ParseValue(line: string)
    requires ParseDuration(line).Some?
    ensures exists h, m, s ::
      IsNumeral(h) && IsNumeral(m) && IsNumeral(s) && line == Join3(h, m, s) &&
      ParseDuration(line).value == Value(h) * 3600 + Value(m) * 60 + Value(s)
  {
    var fields := SplitFields(line);
    JoinSplit(line);
    JoinThree(fields);
  }

  /** Leading zeros in any field do not change the duration read. */
  lemma ParseIgnoresLeadingZeros(i: nat, j: nat, k: nat, h: string, m: string, s: string)
    requires IsNumeral(h) && IsNumeral(m) && IsNumeral(s)
    ensures ParseDuration(Join3(Zeros(i) + h, Zeros(j) + m, Zeros(k) + s)) == ParseDuration(Join3(h, m, s))
  {
    ValueLeadingZeros(i, h);
    ValueLeadingZeros(j, m);
    ValueLeadingZeros(k, s);
    ParseFields(Zeros(i) + h, Zeros(j) + m, Zeros(k) + s);
    ParseFields(h, m, s);
  }

  /** Lines without a colon are rejected. */
  lemma ParseRejectsOneField()
    ensures ParseDuration("abc").None?
    ensures ParseDuration("").None?
  {
    SplitColonFree("abc");
    SplitColonFree("");
  }

  /** A line with only two fields is rejected. */
  lemma ParseRejectsTwoFields()
    ensures ParseDuration("12:34").None?
  {
    SplitColonFree("34");
    SplitCons("12", "34");
    assert "12:34" == "12" + [':'] + "34";
  }

  /** A line with four fields is rejected. */
  lemma ParseRejectsFourFields()
    ensures ParseDuration("1:2:3:4").None?
  {
    assert "1:2:3:4" == Join3("1", "2", "3:4");
    SplitColonFree("4");
    SplitCons("3", "4");
    assert "3:4" == "3" + [':'] + "4";
    SplitCons("2", "3:4");
    assert Join3("1", "2", "3:4") == "1" + [':'] + ("2" + [':'] + "3:4");
    SplitCons("1", "2" + [':'] + "3:4");
  }

  /** Three colon-free fields are rejected as soon as one of them is not a run of digits. */
  lemma ParseRejectsBadFields(h: string, m: string, s: string)
    requires ':' !in h && ':' !in m && ':' !in s
    requires !(IsNumeral(h) && IsNumeral(m) && IsNumeral(s))
    ensures ParseDuration(Join3(h, m, s)).None?
  {
    SplitJoin3(h, m, s);
  }

  /** An empty field is rejected. */
  lemma ParseRejectsEmptyField()
    ensures ParseDuration("1::3").None?
  {
    assert "1::3" == Join3("1", "", "3");
    ParseRejectsBadFields("1", "", "3");
  }

  /** A sign is not a digit: "+1:2:3" is rejected, although `std::stoi` alone would take it. */
  lemma ParseRejectsSign()
    ensures ParseDuration("+1:2:3").None?
  {
    assert "+1:2:3" == Join3("+1", "2", "3");
    assert !IsDigit("+1"[0]);
    ParseRejectsBadFields("+1", "2", "3");
  }

  /** Surrounding spaces are not part of the pattern. */
  lemma ParseRejectsSpaces()
    ensures ParseDuration(" 1:2:3").None?
    ensures ParseDuration("1:2:3 ").None?
  {
    assert " 1:2:3" == Join3(" 1", "2", "3");
    assert !IsDigit(" 1"[0]);
    ParseRejectsBadFields(" 1", "2", "3");
    assert "1:2:3 " == Join3("1", "2", "3 ");
    assert !IsDigit("3 "[1]);
    ParseRejectsBadFields("1", "2", "3 ");
  }

  /**
   * `(hours * 3600) + (minutes * 60) + seconds` as written, in 32-bit `int`:
   * for fields `std::stoi` accepts, a total of 2^31 seconds or more wraps
   * around (signed overflow, taken to wrap as two's-complement machines do).
   */
  function TotalAsWritten(hours: nat, minutes: nat, seconds: nat): (total: int)
    requires hours < IntLimit && minutes < IntLimit && seconds < IntLimit
    ensures -IntLimit <= total < IntLimit
    ensures hours * 3600 + minutes * 60 + seconds < IntLimit ==> total == hours * 3600 + minutes * 60 + seconds
  {
    ToInt32(hours * 3600 + minutes * 60 + seconds)
  }

  /**
   * From 596524 hours on ("596524:00:00" is 2147486400 seconds, past the
   * largest `int`), the line is accepted for its full value, but as written
   * the countdown length comes out negative and the countdown is over at once.
   */
  lemma OverflowingHours(h: nat)
    requires 596524 <= h <= 1193046
    ensures ParseDuration(Join3(Show(h), "00", "00")) == Some(h * 3600)
    ensures TotalAsWritten(h, 0, 0) == h * 3600 - IntModulus < 0
    ensures RemainingTime(TotalAsWritten(h, 0, 0), 0) == Sentinel
  {
    ShowNumeral(h);
    ValueShow(h);
    ValueLeadingZeros(1, "0");
    assert Zeros(1) + "0" == "00";
    ParseFieldValues(Show(h), "00", "00", h, 0, 0);
    var total := h * 3600;
    assert IntLimit <= total < IntModulus;
    assert total % IntModulus == total;
    FinishedIff(total - IntModulus, 0);
  }

  // ---------------------------------------------------------------------
  // The formatter

  /** The sentinel comes back exactly when no time is left. */
  lemma FinishedIff(length: int, elapsed: int)
    ensures RemainingTime(length, elapsed) == Sentinel <==> length - elapsed <= 0
  {
    if length - elapsed > 0 {
      var t := HoursMinutesSeconds(length - elapsed);
      var hh := ZeroPad(Show(t.0), 2);
      ShowNumeral(t.0);
      ZeroPadNumeral(Show(t.0), 2);
      assert RemainingTime(length, elapsed)[0] == hh[0];
      assert !IsDigit(Sentinel[0]);
    }
  }

  /**
   * A positive remainder is written as three numerals joined by ':', each
   * zero-padded to at least two digits (hours of three digits or more carry
   * no leading zero), whose values are its hours, its
   * minutes below 60 and its seconds below 60.
   */
  lemma RemainingTimeFields(length: int, elapsed: int)
    requires length - elapsed > 0
    ensures var fields := SplitFields(RemainingTime(length, elapsed));
      && |fields| == 3
      && IsNumeral(fields[0]) && IsNumeral(fields[1]) && IsNumeral(fields[2])
      && |fields[0]| >= 2 && |fields[1]| == 2 && |fields[2]| == 2
      && (|fields[0]| > 2 ==> fields[0][0] != '0')
      && Value(fields[1]) < 60 && Value(fields[2]) < 60
      && Value(fields[0]) * 3600 + Value(fields[1]) * 60 + Value(fields[2]) == length - elapsed
  {
    var t := HoursMinutesSeconds(length - elapsed);
    var hh, mm, ss := ZeroPad(Show(t.0), 2), ZeroPad(Show(t.1), 2), ZeroPad(Show(t.2), 2);
    ShowNumeral(t.0);
    ZeroPadNumeral(Show(t.0), 2);
    ShowNumeral(t.1);
    ZeroPadNumeral(Show(t.1), 2);
    ShowNumeral(t.2);
    ZeroPadNumeral(Show(t.2), 2);
    ValueShow(t.0);
    ValueShow(t.1);
    ValueShow(t.2);
    NumeralColonFree(hh);
    NumeralColonFree(mm);
    NumeralColonFree(ss);
    SplitJoin3(hh, mm, ss);
  }

  /** Reading back a zero-padded clock gives h*3600 + m*60 + s. */
  lemma ClockRoundTrip(h: nat, m: nat, s: nat)
    ensures ParseDuration(Clock(h, m, s)) == Some(h * 3600 + m * 60 + s)
  {
    ShowNumeral(h);
    ZeroPadNumeral(Show(h), 2);
    ShowNumeral(m);
    ZeroPadNumeral(Show(m), 2);
    ShowNumeral(s);
    ZeroPadNumeral(Show(s), 2);
    ValueShow(h);
    ValueShow(m);
    ValueShow(s);
    ParseFieldValues(ZeroPad(Show(h), 2), ZeroPad(Show(m), 2), ZeroPad(Show(s), 2), h, m, s);
  }

  /** Reading back the text of a positive remainder gives the remainder. */
  lemma RoundTrip(length: int, elapsed: int)
    requires length - elapsed > 0
    ensures ParseDuration(RemainingTime(length, elapsed)) == Some(length - elapsed)
  {
    var t := HoursMinutesSeconds(length - elapsed);
    assert RemainingTime(length, elapsed) == Clock(t.0, t.1, t.2);
    ClockRoundTrip(t.0, t.1, t.2);
  }

  /** Below 100, a number is written as exactly two digits. */
  lemma TwoDigits(n: nat)
    requires n < 100
    ensures var d := ZeroPad(Show(n), 2);
      |d| == 2 && IsDigit(d[0]) && IsDigit(d[1])
  {
    ShowNumeral(n);
    ZeroPadNumeral(Show(n), 2);
  }

  /** Two-digit fields make an eight-character clock with colons at 2 and 5. */
  lemma ClockShape(h: nat, m: nat, s: nat)
    requires h < 100 && m < 100 && s < 100
    ensures var text := Clock(h, m, s);
      |text| == 8 && text[2] == ':' && text[5] == ':'
      && forall i | 0 <= i < 8 && i != 2 && i != 5 :: IsDigit(text[i])
  {
    var hh, mm, ss := ZeroPad(Show(h), 2), ZeroPad(Show(m), 2), ZeroPad(Show(s), 2);
    TwoDigits(h);
    TwoDigits(m);
    TwoDigits(s);
    var text := Clock(h, m, s);
    assert text == hh + [':'] + mm + [':'] + ss;
    assert text == [hh[0], hh[1], ':', mm[0], mm[1], ':', ss[0], ss[1]];
  }

  /** Below 100 hours the text is exactly `HH:MM:SS`: eight characters, colons at 2 and 5. */
  lemma RemainingTimeWidth(length: int, elapsed: int)
    requires 0 < length - elapsed < 360000
    ensures var text := RemainingTime(length, elapsed);
      |text| == 8 && text[2] == ':' && text[5] == ':'
      && forall i | 0 <= i < 8 && i != 2 && i != 5 :: IsDigit(text[i])
  {
    var t := HoursMinutesSeconds(length - elapsed);
    assert t.0 < 100;
    assert RemainingTime(length, elapsed) == Clock(t.0, t.1, t.2);
    ClockShape(t.0, t.1, t.2);
  }

  /** Unpadded `h:m:s` is read as h*3600 + m*60 + s, for every h, m and s. */
  lemma ParseShown(h: nat, m: nat, s: nat)
    ensures ParseDuration(Join3(Show(h), Show(m), Show(s))) == Some(h * 3600 + m * 60 + s)
  {
    ShowNumeral(h);
    ShowNumeral(m);
    ShowNumeral(s);
    ValueShow(h);
    ValueShow(m);
    ValueShow(s);
    ParseFieldValues(Show(h), Show(m), Show(s), h, m, s);
  }

  /** A number below ten is written as '0' and its digit. */
  lemma PadOneDigit(n: nat)
    requires n < 10
    ensures ZeroPad(Show(n), 2) == ['0', DigitChar(n)]
  {
    assert Show(n) == [DigitChar(n)];
    assert Zeros(1) == ['0'];
  }

  /** Three numbers below ten make the clock `0h:0m:0s`. */
  lemma ClockOneDigit(h: nat, m: nat, s: nat)
    requires h < 10 && m < 10 && s < 10
    ensures Clock(h, m, s) == ['0', DigitChar(h), ':', '0', DigitChar(m), ':', '0', DigitChar(s)]
  {
    PadOneDigit(h);
    PadOneDigit(m);
    PadOneDigit(s);
  }

  /** Under ten seconds left, the text is `00:00:0` and the one digit. */
  lemma RemainingTimeUnderTen(length: int, elapsed: int)
    requires 0 < length - elapsed < 10
    ensures RemainingTime(length, elapsed) == "00:00:0" + [DigitChar(length - elapsed)]
  {
    var r := length - elapsed;
    assert HoursMinutesSeconds(r) == (0, 0, r);
    ClockOneDigit(0, 0, r);
    assert DigitChar(0) == '0';
  }

  /** The worked examples: 10 s after 9, 10 and 11 s, and 3661 s from the start. */
  lemma RemainingTimeExamples()
    ensures RemainingTime(10, 9) == "00:00:01"
    ensures RemainingTime(10, 10) == Sentinel
    ensures RemainingTime(10, 11) == Sentinel
    ensures RemainingTime(3661, 0) == "01:01:01"
  {
    RemainingTimeUnderTen(10, 9);
    assert DigitChar(1) == '1';
    assert HoursMinutesSeconds(3661) == (1, 1, 1);
    ClockOneDigit(1, 1, 1);
  }
}
