/** What valueValidator accepts, stated through the decimal spelling of
    numbers rather than through the validator's own branches. */
module ValidatorFacts {
  import opened Outcomes
  import opened Strings
  import opened Fields
  import opened Validator

  /** A plain decimal number is accepted exactly when it lies within the
      field's bounds; otherwise the side it falls out on is reported. */
  lemma NumberVerdict(n: nat, f: Field)
    ensures Validate(Text(Decimal(n)), Name(f)) ==
              if n > Max(f) then Fail(AboveMax) else if n < Min(f) then Fail(BelowMin) else Pass
    ensures Validate(Text(Decimal(n)), Name(f)).Pass? <==> Min(f) <= n <= Max(f)
  {
    var d := Decimal(n);
    ParseIntStopsAtNonDigit(d, "");
    assert d + "" == d;
    DecimalValue(n);
    assert ParseInt(d) == Some(n);
    DigitsAreDashFree(d);
    PlainText(d, f);
  }

  /** A range of two decimal numbers is accepted exactly when its bottom is
      at least the minimum and its top at most the maximum. Bottom above top
      is accepted, and when both sides are out of bounds the top is blamed. */
  lemma RangeVerdictOfNumbers(lo: nat, hi: nat, f: Field)
    ensures Validate(Text(Decimal(lo) + "-" + Decimal(hi)), Name(f)) ==
              if hi > Max(f) then Fail(RangeTop) else if lo < Min(f) then Fail(RangeBottom) else Pass
    ensures Validate(Text(Decimal(lo) + "-" + Decimal(hi)), Name(f)).Pass? <==> Min(f) <= lo && hi <= Max(f)
  {
    var a, b := Decimal(lo), Decimal(hi);
    DigitsAreDashFree(a);
    DigitsAreDashFree(b);
    DecimalValue(lo);
    DecimalValue(hi);
    assert StartsWell(a) by { assert IsDigit(a[0]); }
    RangeVerdictOfPieces(a, b, f);
  }

  /** The range rule in terms of the two sides of the dash: the top side is
      at fault when it is empty or a number above the maximum, otherwise the
      bottom side when it is empty or a number below the minimum. A side that
      is not all digits is never at fault. */
  lemma RangeVerdictOfPieces(a: string, b: string, f: Field)
    requires '-' !in a && '-' !in b
    requires a == "" || StartsWell(a)
    ensures Validate(Text(a + "-" + b), Name(f)) ==
              if b == "" || (AllDigits(b) && DigitsValue(b) > Max(f)) then Fail(RangeTop)
              else if a == "" || (AllDigits(a) && DigitsValue(a) < Min(f)) then Fail(RangeBottom)
              else Pass
  {
    var s := a + "-" + b;
    TwoPieces(a, b);
    assert s[0] == if a == "" then '-' else a[0];
    RangeText(s, f);
  }

  /** Only the first two pieces of a range are read: "1-2-99" is judged as
      "1-2". */
  lemma RangeReadsTwoPieces(a: string, b: string, c: string, name: string)
    requires '-' !in a && '-' !in b && '-' !in c
    ensures Validate(Text(a + "-" + b + "-" + c), name) == Validate(Text(a + "-" + b), name)
  {
    var long, short := a + "-" + b + "-" + c, a + "-" + b;
    SplitJoin([a, b, c], '-');
    assert [a, b, c][1..] == [b, c];
    assert Join([b, c], '-') == b + "-" + c;
    assert Join([a, b, c], '-') == long;
    TwoPieces(a, b);
    assert long[0] == short[0];
    assert '-' in long by { assert long[|a|] == '-'; }
    SamePiecesSameVerdict(long, short, name);
  }

  /** Two dash-free pieces joined by a dash split back into those pieces. */
  lemma TwoPieces(a: string, b: string)
    requires '-' !in a && '-' !in b
    ensures Split(a + "-" + b, '-') == [a, b]
    ensures '-' in a + "-" + b
  {
    SplitJoin([a, b], '-');
    assert Join([a, b], '-') == a + "-" + b;
    assert (a + "-" + b)[|a|] == '-';
  }

  /** Range texts are judged by their first character and first two pieces. */
  lemma SamePiecesSameVerdict(s: string, t: string, name: string)
    requires '-' in s && '-' in t && s[0] == t[0]
    requires Split(s, '-')[0] == Split(t, '-')[0] && Split(s, '-')[1] == Split(t, '-')[1]
    ensures Validate(Text(s), name) == Validate(Text(t), name)
  {
    assert s != "*" && t != "*";
  }

  /** A side of a range that is not all digits converts to NaN and so never
      fails its bound test; only an empty side does. */
  lemma NonNumericSideNeverFails(a: string, b: string, name: string)
    requires '-' !in a && '-' !in b
    ensures a != "" && !AllDigits(a) ==> Validate(Text(a + "-" + b), name) != Fail(RangeBottom)
    ensures b != "" && !AllDigits(b) ==> Validate(Text(a + "-" + b), name) != Fail(RangeTop)
  {
    if FieldOf(name).Some? && (a == "" || StartsWell(a)) {
      var f := FieldOf(name).value;
      RangeVerdictOfPieces(a, b, f);
    } else {
      TwoPieces(a, b);
    }
  }

  /** Outside ranges only the leading integer is bounded: a decimal number
      followed by anything that starts with a non-digit is judged as the
      number alone ("5*" as "5", "5,99" as "5"). */
  lemma LeadingIntegerDecides(n: nat, t: string, name: string)
    requires '-' !in t
    requires |t| == 0 || !IsDigit(t[0])
    ensures Validate(Text(Decimal(n) + t), name) == Validate(Text(Decimal(n)), name)
  {
    var d := Decimal(n);
    DigitsAreDashFree(d);
    ParseIntStopsAtNonDigit(d, t);
    ParseIntStopsAtNonDigit(d, "");
    assert d + "" == d;
    assert (d + t)[0] == d[0];
  }

  /** A value that is not a range and has no leading digit is never bounded:
      "*5" passes for every field. */
  lemma NoLeadingDigitPasses(s: string, f: Field)
    requires |s| > 0 && s[0] == '*'
    requires '-' !in s
    ensures Validate(Text(s), Name(f)) == Pass
  {
    assert LeadingDigits(s) == "";
  }

  /** An array is judged as a whole, as the text of its comma join: as long as
      no element is exactly "-", only the first element counts, and only
      through its leading integer. */
  lemma ListJudgedByFirstElement(items: seq<string>, name: string)
    requires |items| >= 1
    requires "-" !in items
    ensures Validate(List(items), name) == Validate(List([items[0]]), name)
  {
    var text := Join(items, ',');
    assert AsText(List([items[0]])) == items[0];
    if |items| > 1 {
      var tail := [','] + Join(items[1..], ',');
      assert text == items[0] + tail;
      if items[0] == "" {
        assert text[0] == ',';
        assert !StartsWell(text) && !StartsWell(items[0]);
      } else {
        assert text[0] == items[0][0];
        assert StartsWell(text) == StartsWell(items[0]);
        ParseIntOfPrefix(items[0], tail);
        assert ParseInt(text) == ParseInt(items[0]);
      }
    }
  }

  /** A one-element array holding a negative number is not a range (no
      element is exactly "-"), so parseInt reads the sign: the value is below
      every minimum except when it is -0 for a field whose minimum is 0. */
  lemma NegativeListVerdict(n: nat, f: Field)
    ensures Validate(List(["-" + Decimal(n)]), Name(f)) ==
              if -(n as int) < Min(f) then Fail(BelowMin) else Pass
  {
    var t := "-" + Decimal(n);
    ParseIntOfDecimal(n, "");
    assert t + "" == t;
    assert AsText(List([t])) == t && t[0] == '-';
    assert "-" !in [t] by { assert |t| >= 2; }
    assert FieldOf(Name(f)) == Some(f);
  }

  /** The text "-n", unlike the array ["-n"], is a range with an empty
      bottom: it fails at the top when n is above the maximum and at the
      bottom otherwise, whatever the sign would have meant. */
  lemma NegativeTextIsRange(n: nat, f: Field)
    ensures Validate(Text("-" + Decimal(n)), Name(f)) ==
              if n > Max(f) then Fail(RangeTop) else Fail(RangeBottom)
  {
    var d := Decimal(n);
    DecimalValue(n);
    DigitsAreDashFree(d);
    RangeVerdictOfPieces("", d, f);
    assert "" + "-" + d == "-" + d;
  }

  /** A one-element array without a dash is judged exactly as its element. */
  lemma SingletonListAsText(s: string, name: string)
    requires '-' !in s
    ensures Validate(List([s]), name) == Validate(Text(s), name)
  {
    assert AsText(List([s])) == s;
    if s == "*" {
      assert LeadingDigits(s) == "";
    }
  }

  /** The empty array is always refused: its text is empty. */
  lemma EmptyListRejected(f: Field)
    ensures Validate(List([]), Name(f)) == Fail(BadCharacter)
  {
  }

  lemma DigitsAreDashFree(d: string)
    requires AllDigits(d)
    ensures '-' !in d
  {
  }

  /** Plain (non-range, non-wildcard) text of a known field is judged by the
      bound test on its leading integer. */
  lemma PlainText(s: string, f: Field)
    requires StartsWell(s) && s != "*" && '-' !in s
    ensures Validate(Text(s), Name(f)) == ScalarVerdict(ParseInt(s), f)
    ensures Validate(Text(s), Name(f)).Fail? <==>
              ParseInt(s).Some? && (ParseInt(s).value < Min(f) || ParseInt(s).value > Max(f))
  {
    assert FieldOf(Name(f)) == Some(f);
  }

  /** Range text of a known field is judged by the range bound tests. */
  lemma RangeText(s: string, f: Field)
    requires StartsWell(s) && '-' in s
    ensures Validate(Text(s), Name(f)) == RangeVerdict(s, f)
  {
    assert FieldOf(Name(f)) == Some(f);
  }

  /** Out-of-bounds plain values: an hour of 100, a day of the week of 0,
      the year 1834. */
  lemma HourHundredRefused()
    ensures Validate(Text("100"), "hour") == Fail(AboveMax)
  {
    assert Decimal(100) == "100";
    NumberVerdict(100, Hour);
  }

  lemma WeekdayZeroRefused()
    ensures Validate(Text("0"), "dayOfTheWeek") == Fail(BelowMin)
  {
    assert Decimal(0) == "0";
    NumberVerdict(0, DayOfTheWeek);
  }

  lemma Year1834Refused()
    ensures Validate(Text("1834"), "year") == Fail(BelowMin)
  {
    YearSpelling();
    BeforeFirstYear(1834);
  }

  /** Any year written before 1900 is below the minimum. */
  lemma BeforeFirstYear(n: nat)
    requires n < 1900
    ensures Validate(Text(Decimal(n)), "year") == Fail(BelowMin)
  {
    NumberVerdict(n, Year);
  }

  /** The decimal spelling of 1834. */
  lemma YearSpelling()
    ensures Decimal(1834) == "1834"
  {
    assert Decimal(183) == "183";
  }

  /** Ranges: "20-60" minutes and "6-24" hours overrun the top, "1-5" days
      of the week are fine, and the reversed "10-5" minutes are accepted. */
  lemma MinuteRangeOverTopRefused()
    ensures Validate(Text("20-60"), "minute") == Fail(RangeTop)
  {
    assert "20-60" == Decimal(20) + "-" + Decimal(60) by {
      assert Decimal(20) == "20" && Decimal(60) == "60";
    }
    RangeVerdictOfNumbers(20, 60, Minute);
  }

  lemma HourRangeOverTopRefused()
    ensures Validate(Text("6-24"), "hour") == Fail(RangeTop)
  {
    assert "6-24" == Decimal(6) + "-" + Decimal(24) by {
      assert Decimal(6) == "6" && Decimal(24) == "24";
    }
    RangeVerdictOfNumbers(6, 24, Hour);
  }

  lemma WeekdayRangeAccepted()
    ensures Validate(Text("1-5"), "dayOfTheWeek") == Pass
  {
    assert "1-5" == Decimal(1) + "-" + Decimal(5) by {
      assert Decimal(1) == "1" && Decimal(5) == "5";
    }
    RangeVerdictOfNumbers(1, 5, DayOfTheWeek);
  }

  lemma ReversedMinuteRangeAccepted()
    ensures Validate(Text("10-5"), "minute") == Pass
  {
    assert "10-5" == Decimal(10) + "-" + Decimal(5) by {
      assert Decimal(10) == "10" && Decimal(5) == "5";
    }
    RangeVerdictOfNumbers(10, 5, Minute);
  }

  /** "1-2-99" is accepted as a minute value: the 99 is never read. */
  lemma ThirdPieceIgnored()
    ensures Validate(Text("1-2-99"), "minute") == Pass
  {
    assert "1-2-99" == "1" + "-" + "2" + "-" + "99";
    RangeReadsTwoPieces("1", "2", "99", "minute");
    assert "1-2" == Decimal(1) + "-" + Decimal(2) by {
      assert Decimal(1) == "1" && Decimal(2) == "2";
    }
    RangeVerdictOfNumbers(1, 2, Minute);
  }
}
