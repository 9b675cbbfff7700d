/**
 The clock-string formatter: a count of seconds becomes "mm:ss" when it is
 under one hour and "hh:mm:ss" otherwise. The hours and minutes are found by
 floor division, every part is zero-padded to two digits when it has only one,
 and the parts are joined with colons.
 */
module TimeFormatting {
  import opened Decimal
  import opened Strings

  datatype Option<T> = None | Some(value: T)

  /** A duration split into clock fields. */
  datatype Clock = Clock(hours: nat, minutes: nat, seconds: nat)

  /** Hours, minutes and seconds of a duration, by floor division and remainder. */
  function Decompose(seconds: nat): (c: Clock)
    ensures c.minutes < 60 && c.seconds < 60
    ensures c.hours * 3600 + c.minutes * 60 + c.seconds == seconds
    ensures c.hours == seconds / 3600
    ensures c.minutes == (seconds / 60) % 60 && c.seconds == seconds % 60
  {
    var totalMinutes := seconds / 60;
    Clock(totalMinutes / 60, totalMinutes % 60, seconds % 60)
  }

  /** The fields are the only ones in range that add up to the duration. */
  lemma DecomposeUnique(seconds: nat, c: Clock)
    requires c.minutes < 60 && c.seconds < 60
    requires c.hours * 3600 + c.minutes * 60 + c.seconds == seconds
    ensures Decompose(seconds) == c
  {
    var d := Decompose(seconds);
    assert seconds == (c.hours * 60 + c.minutes) * 60 + c.seconds;
    assert seconds == (d.hours * 60 + d.minutes) * 60 + d.seconds;
    assert d.seconds == c.seconds;
    assert c.hours * 60 + c.minutes == d.hours * 60 + d.minutes;
  }

  /** A field's text: its decimal rendering, with a "0" in front when it is a single digit. */
  function Pad2(n: nat): (r: string)
    ensures AllDigits(r) && |r| >= 2
    ensures DigitsToNat(r) == n
    ensures r[0] == '0' <==> n <= 9
    ensures n < 100 ==> |r| == 2
  {
    DigitsRoundTrip(n);
    if n > 9 then
      DigitsLength(n);
      NatToDigits(n)
    else
      LeadingZero(NatToDigits(n));
      "0" + NatToDigits(n)
  }

  /** The hours prefix: the padded hours and a colon, or nothing at all when there are no hours. */
  function HoursText(hours: nat): (r: string)
    ensures r == "" <==> hours == 0
    ensures hours > 0 ==> |r| >= 3 && r[|r| - 1] == ':' && AllDigits(r[..|r| - 1])
  {
    if hours > 0 then
      var p := Pad2(hours);
      assert (p + ":")[..|p|] == p;
      p + ":"
    else ""
  }

  /** The clock string for a duration of `seconds` seconds. */
  function TimeFormatting(seconds: nat): (r: string)
    ensures |r| >= 5
  {
    var c := Decompose(seconds);
    HoursText(c.hours) + (Pad2(c.minutes) + ":") + Pad2(c.seconds)
  }

  predicate TwoDigits(s: string) {
    |s| == 2 && AllDigits(s)
  }

  /** What a present hours segment looks like. */
  predicate HoursSegment(s: string, hours: nat) {
    IsNumeral(s) && |s| >= 2 && DigitsToNat(s) == hours
    && (s[0] == '0' <==> hours <= 9)
    && (hours >= 10 ==> s == NatToDigits(hours))
  }

  /** The output is the two or three field texts joined with colons. */
  lemma {:induction false} FormatIsJoin(seconds: nat)
    ensures var c := Decompose(seconds);
            TimeFormatting(seconds)
            == Join(if c.hours > 0 then [Pad2(c.hours), Pad2(c.minutes), Pad2(c.seconds)]
                    else [Pad2(c.minutes), Pad2(c.seconds)], ':')
  {
    var c := Decompose(seconds);
    var mm, ss := Pad2(c.minutes), Pad2(c.seconds);
    assert Join([ss], ':') == ss;
    assert [mm, ss][1..] == [ss];
    if c.hours > 0 {
      assert [Pad2(c.hours), mm, ss][1..] == [mm, ss];
    }
  }

  lemma NoColonInDigits(s: string)
    requires AllDigits(s)
    ensures ':' !in s
  {
  }

  /**
   Split on colons, the output has three segments when the duration is at
   least an hour and two otherwise; the last two are the minutes and the
   seconds, each exactly two digits; the first of three is the hours.
   */
  lemma {:induction false} SplitOutput(seconds: nat)
    ensures var parts := Split(TimeFormatting(seconds), ':');
            |parts| == (if seconds >= 3600 then 3 else 2)
            && TwoDigits(parts[|parts| - 2]) && DigitsToNat(parts[|parts| - 2]) == (seconds / 60) % 60
            && TwoDigits(parts[|parts| - 1]) && DigitsToNat(parts[|parts| - 1]) == seconds % 60
            && (seconds >= 3600 ==> HoursSegment(parts[0], seconds / 3600))
  {
    var c := Decompose(seconds);
    var parts := if c.hours > 0 then [Pad2(c.hours), Pad2(c.minutes), Pad2(c.seconds)]
                 else [Pad2(c.minutes), Pad2(c.seconds)];
    FormatIsJoin(seconds);
    forall i | 0 <= i < |parts| ensures ':' !in parts[i] {
      NoColonInDigits(parts[i]);
    }
    SplitJoin(parts, ':');
    if c.hours >= 10 {
      DigitsLength(c.hours);
    }
  }

  /** The output contains one colon under an hour, two otherwise; every other character is a digit. */
  lemma {:induction false} OutputCharacters(seconds: nat)
    ensures var r := TimeFormatting(seconds);
            Count(r, ':') == (if seconds >= 3600 then 2 else 1)
            && forall i :: 0 <= i < |r| && r[i] != ':' ==> IsDigit(r[i])
  {
    SplitOutput(seconds);
    var c := Decompose(seconds);
    var h, mm, ss := HoursText(c.hours), Pad2(c.minutes) + ":", Pad2(c.seconds);
    var r := h + mm + ss;
    assert r == TimeFormatting(seconds);
    forall i | 0 <= i < |r| && r[i] != ':' ensures IsDigit(r[i]) {
      if i < |h| {
        assert r[i] == h[i];
        assert h[..|h| - 1][i] == h[i];
      } else if i < |h| + |mm| {
        assert r[i] == mm[i - |h|];
      } else {
        assert r[i] == ss[i - |h| - |mm|];
      }
    }
  }

  /** The hours prefix is present exactly when the duration reaches one hour; otherwise the output is "dd:dd". */
  lemma {:induction false} UnderAnHour(seconds: nat)
    ensures var r := TimeFormatting(seconds);
            (|r| == 5 <==> seconds < 3600)
            && (seconds < 3600 ==>
                  IsDigit(r[0]) && IsDigit(r[1]) && r[2] == ':' && IsDigit(r[3]) && IsDigit(r[4]))
  {
    var c := Decompose(seconds);
    var h, mm, ss := HoursText(c.hours), Pad2(c.minutes), Pad2(c.seconds);
    assert |mm| == 2 && |ss| == 2;
    if seconds < 3600 {
      assert h == "";
      var r := mm + ":" + ss;
      assert r == TimeFormatting(seconds);
      assert r[0] == mm[0] && r[1] == mm[1] && r[3] == ss[0] && r[4] == ss[1];
    } else {
      assert |h| >= 3;
    }
  }

  /** Reads a clock string back as seconds: "m:s" or "h:m:s", each part a non-empty run of digits. */
  function Parse(text: string): Option<nat> {
    var parts := Split(text, ':');
    if |parts| == 2 && IsNumeral(parts[0]) && IsNumeral(parts[1]) then
      Some(DigitsToNat(parts[0]) * 60 + DigitsToNat(parts[1]))
    else if |parts| == 3 && IsNumeral(parts[0]) && IsNumeral(parts[1]) && IsNumeral(parts[2]) then
      Some(DigitsToNat(parts[0]) * 3600 + DigitsToNat(parts[1]) * 60 + DigitsToNat(parts[2]))
    else None
  }

  /** Reading the output back recovers the duration. */
  lemma {:induction false} RoundTrip(seconds: nat)
    ensures Parse(TimeFormatting(seconds)) == Some(seconds)
  {
    SplitOutput(seconds);
    var c := Decompose(seconds);
    if seconds < 3600 {
      assert c.hours == 0;
    }
  }

  /** Different durations give different strings. */
  lemma FormattingInjective(a: nat, b: nat)
    requires TimeFormatting(a) == TimeFormatting(b)
    ensures a == b
  {
    RoundTrip(a);
    RoundTrip(b);
  }

  lemma ExamplesUnderAnHour()
    ensures TimeFormatting(0) == "00:00"
    ensures TimeFormatting(5) == "00:05"
    ensures TimeFormatting(65) == "01:05"
    ensures TimeFormatting(3599) == "59:59"
  {
    assert Decompose(0) == Clock(0, 0, 0);
    assert Decompose(5) == Clock(0, 0, 5);
    assert Decompose(65) == Clock(0, 1, 5) by {
      DecomposeUnique(65, Clock(0, 1, 5));
    }
    assert Decompose(3599) == Clock(0, 59, 59) by {
      DecomposeUnique(3599, Clock(0, 59, 59));
    }
    assert Pad2(0) == "00" && Pad2(5) == "05" && Pad2(1) == "01";
    assert Pad2(59) == "59" by {
      assert NatToDigits(59) == NatToDigits(5) + ['9'];
    }
  }

  lemma ExamplesOverAnHour()
    ensures TimeFormatting(3600) == "01:00:00"
    ensures TimeFormatting(3661) == "01:01:01"
  {
    assert Decompose(3600) == Clock(1, 0, 0) by {
      DecomposeUnique(3600, Clock(1, 0, 0));
    }
    assert Decompose(3661) == Clock(1, 1, 1) by {
      DecomposeUnique(3661, Clock(1, 1, 1));
    }
    assert Pad2(0) == "00" && Pad2(1) == "01";
    assert HoursText(1) == "01:";
  }

  lemma ExampleHundredHours()
    ensures TimeFormatting(360000) == "100:00:00"
  {
    var c := Decompose(360000);
    assert c == Clock(100, 0, 0) by {
      DecomposeUnique(360000, Clock(100, 0, 0));
    }
    assert NatToDigits(10) == "10";
    assert NatToDigits(100) == "100";
    assert Pad2(100) == "100";
    assert HoursText(100) == "100:";
    assert Pad2(0) == "00";
  }
}
